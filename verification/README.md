# Game Simulation counters and editor payloads in Dafny

This project models the core of the Unity Game Simulation package.

The runtime part is the counter subsystem:

- `Counter` is a named 64-bit accumulator. It keeps an insertion-ordered snapshot log and an optional step series.
- `StepSeries` is a countdown sampler. It appends the counter's value every `interval` ticks.
- `TickManager` is a clock driven by frame deltas. It fires one `EverySecond` notification per whole second crossed.
- `GameSimManager` is the registry of counters keyed by name. It covers lazy creation, the shutdown flag that blocks mutation, snapshot sweeps under unique labels, the 15-second minimum interval, and numbered flushes.

The editor part is the pure data shaping around it:

- the create-job payload and the authorization headers of `GameSimApiClient`;
- the parent/child links of the parameters tree and its `parameterDict` upsert;
- the settings-list edits of `GameSimWindow`, and the metadata wrapper added to each setting and removed again before a push;
- the scene-selection dictionary's serialisation;
- the build and job name validators;
- the rule that adds the `UNITY_GAME_SIMULATION` scripting define for the length of a build.

Everything is an immutable datatype with pure transition functions. Each public operation is one atomic step, so locks and `Interlocked` calls become plain updates. A .NET `Dictionary` or `OrderedDictionary` from which nothing is removed enumerates in insertion order. The module `Dict` models both as an association list `seq<(K, V)>`. The 32- and 64-bit integers wrap explicitly (`Ints.Wrap32`, `Ints.Wrap64`). `Int32.Parse` follows the default `NumberStyles.Integer`: surrounding white space, an optional sign, ASCII digits, and an overflow error. Its model is `Decimal.ParseInt32`. Clock time is `real`.

Modules, one per component: `Series` (StepSeries.cs), `Counters` (Counter.cs), `Clock` (TickManager.cs), `SimManager` (GameSimManager.cs), `ManagerScenarios` (worked runs of the manager), `ApiClient` (GameSimApiClient.cs), `Treeview` (SimulationParametersTreeview.cs), `Window` and `BuildRules` (GameSimWindow.cs). Shared helpers live in `Wrappers`, `Ints`, `Text`, `Decimal` and `Dict`.

Two behaviours of the code worth noting:

- A second `CaptureStepSeries` on a counter only logs an error and then replaces the series; it does not keep the old one.
- The label loop of `SnapshotCounters` re-checks every suffixed candidate until it finds an unused one.

## Model

| member | source | states |
|---|---|---|
| Counters.New | Runtime/Counter.cs:36-40 | a new counter has the given name, value 0, no snapshot log, no step series and flush number 0 |
| Counters.Increment | Runtime/Counter.cs:42-45 | the new value is old + amount modulo 2^64, equal to old + amount whenever that fits in 64 bits; the returned value is the stored one and nothing else changes |
| Counters.IncrementsSum | Runtime/Counter.cs:42-45 | increments accumulate: from a fresh counter, any sequence of increments leaves the 64-bit wrap of their sum |
| Counters.Reset | Runtime/Counter.cs:47-50 | the value becomes the argument (0 by default) whatever it was; name, log, series and flush number are kept |
| Counters.ResetThenIncrement | Runtime/Counter.cs:42-50 | Reset(v) followed by Increment(a) yields v + a wrapped to 64 bits |
| Counters.CountFlush | Runtime/GameSimManager.cs:214-214 | the flush number goes up by one modulo 2^64 as a signed 64-bit int (unchecked `_count++`), by exactly one whenever it is below 2^63 - 1; name, value, log and series are kept |
| Counters.Snapshot | Runtime/Counter.cs:52-59 | fails exactly when the label is already in the log; otherwise (label, current value) is appended at the end, earlier entries and the value untouched, and a duplicate-free log stays duplicate-free |
| Counters.CaptureStepSeries | Runtime/Counter.cs:61-75 | a non-positive interval changes nothing; a positive one installs a fresh series with that interval, countdown 0 and values [current value], replacing any existing series |
| Counters.TickSeries | Runtime/StepSeries.cs:39-46 | an EverySecond notification ticks the counter's series with the counter's current value; a counter without a series is unchanged |
| Counters.TickSeriesTimes | Runtime/StepSeries.cs:39-46 | repeated notifications never change name, value, log or flush number, and keep the series' interval |
| Series.CaptureValue | Runtime/StepSeries.cs:48-54 | appends the owner's value, or nothing when there is no owner; interval, unit and countdown are kept |
| Series.Create | Runtime/StepSeries.cs:26-37 | after construction the values are [owner's value] (empty without an owner), the interval is the given amount, the countdown is 0 |
| Series.Tick | Runtime/StepSeries.cs:39-46 | the countdown drops by one as a 32-bit int; it captures exactly when the result is at most 0 and then resets the countdown to the interval; the values are append-only, at most one element added, equal to the owner's value |
| Series.FirstTickCaptures | Runtime/StepSeries.cs:20-46 | because the countdown starts at 0, the first tick after construction always captures |
| Series.TicksSchedule | Runtime/StepSeries.cs:39-46 | for interval N >= 1, after k >= 1 ticks there are 2 + (k-1)/N values: the construction value, then the counter's value at ticks 1, 1+N, 1+2N, ...; the countdown is N - (k-1)%N |
| Series.ScheduleStep | Runtime/StepSeries.cs:39-46 | one more tick carries the schedule from k to k+1 ticks |
| Clock.Enable | Runtime/TickManager.cs:33-33 | enabling sets the flag and keeps the time left |
| Clock.Disable | Runtime/TickManager.cs:38-38 | disabling clears the flag and keeps the time left |
| Clock.CatchUp | Runtime/TickManager.cs:51-55 | the catch-up loop ends with time left = start + k, at least 0, below 1 whenever it fired, and fires nothing from a non-negative start |
| Clock.Update | Runtime/TickManager.cs:44-56 | inactive: nothing changes and nothing fires; active: after = before - delta + k with after >= 0, and k = 0 exactly when before - delta >= 0, so reaching exactly 0 does not fire |
| Clock.FiresUnique | Runtime/TickManager.cs:49-55 | the number fired is the only count meeting the loop's exit conditions |
| Clock.UpdateKeepsBounds | Runtime/TickManager.cs:42-56 | with non-negative deltas the time left stays within [0, 1] |
| SimManager.InitialValid | Runtime/GameSimManager.cs:154-158 | the empty registry with no used labels satisfies the registry invariant |
| SimManager.EmptyValid | Runtime/GameSimManager.cs:154-158 | a registry without counters satisfies the invariant whatever labels it has recorded |
| SimManager.Store | Runtime/GameSimManager.cs:50-50 | `_counters[name] = c` changes only that entry, keeps an existing key's position, and keeps the invariant for a counter carrying its own name |
| SimManager.StoreValid | Runtime/GameSimManager.cs:50-50 | storing a counter whose log only uses recorded labels keeps the registry invariant |
| SimManager.GetCounter | Runtime/GameSimManager.cs:40-55 | an existing counter is returned with nothing changed; an absent name gets a new zero counter appended; no other entry changes and nothing is removed |
| SimManager.IncrementCounter | Runtime/GameSimManager.cs:64-72 | unless shutting down, the named counter (created if absent) gains the amount mod 2^64 and is otherwise the counter it was, log, series and flush number included; other counters are unchanged, a new name is appended to the key order, and the invariant is kept; shutting down changes nothing |
| SimManager.SetCounter | Runtime/GameSimManager.cs:79-87 | unless shutting down, the named counter (created if absent) holds the value and is otherwise the counter it was, log, series and flush number included; other counters are unchanged, a new name is appended to the key order, and the invariant is kept; shutting down changes nothing |
| SimManager.ResetCounter | Runtime/GameSimManager.cs:93-98 | is SetCounter(name, 0): unless shutting down the named counter (created if absent) becomes 0 with its log, series and flush number kept; other counters and the key order as for SetCounter; the invariant is kept |
| SimManager.FirstFree | Runtime/GameSimManager.cs:110-114 | the suffix loop ends at the first i with label-i unused, every smaller suffix being used |
| SimManager.UsedBound | Runtime/GameSimManager.cs:110-114 | the loop cannot run past the number of used labels, so it terminates |
| SimManager.UniqueLabel | Runtime/GameSimManager.cs:108-114 | the chosen label is unused; it is the given label when that is unused, else the first unused label-i |
| SimManager.SnapshotAll | Runtime/GameSimManager.cs:119-123 | the sweep succeeds exactly when no counter already holds the label, and then each counter is the result of its own Snapshot, in order |
| SimManager.SweepSucceeds | Runtime/GameSimManager.cs:115-124 | in a valid registry a label never used before cannot make any counter's Snapshot fail |
| SimManager.SweepValid | Runtime/GameSimManager.cs:115-124 | a successful sweep under a label that is then recorded keeps the registry invariant |
| SimManager.Sweep | Runtime/GameSimManager.cs:115-124 | records the label and appends (label, value) to every registered counter, with the names and their order kept |
| SimManager.SnapshotCounters | Runtime/GameSimManager.cs:105-126 | the label chosen by UniqueLabel is added to the used set and appended with the current value to every counter's log; values and names do not change; on a valid registry it never fails and keeps validity; shutdown does not block it |
| SimManager.CaptureStepSeries | Runtime/GameSimManager.cs:134-147 | the interval used is max(s, 15); the counter is created if absent and gets a fresh series holding its current value; the clock ends up active with its time left kept; other counters are unchanged; the rest of the counter is kept, so a new counter has an empty log and flush number 0, and a new name is appended to the key order |
| SimManager.MapCounters | Runtime/GameSimManager.cs:250-257 | applying a name- and log-preserving update to every counter maps each lookup and keeps the invariant |
| SimManager.ValidOtherFields | Runtime/GameSimManager.cs:154-158 | the invariant depends only on the registry and the used labels |
| SimManager.Flush | Runtime/GameSimManager.cs:266-296 | a flush writes counters_{seq}.json holding the metadata and every registered counter in enumeration order, then increments seq; the counters are untouched |
| SimManager.FlushListsRegistry | Runtime/GameSimManager.cs:172-179 | in a valid registry the flushed items are exactly the registered counters, each once, each under its own name |
| SimManager.FlushFileNameInjective | Runtime/GameSimManager.cs:292-292 | distinct sequence numbers give distinct file names |
| SimManager.FlushNamesDistinct | Runtime/GameSimManager.cs:290-295 | two successive flushes never write the same file |
| SimManager.ShutdownHandler | Runtime/GameSimManager.cs:259-264 | the shutdown flag is raised and then exactly the flush's file is produced |
| SimManager.ShutdownBlocksMutation | Runtime/GameSimManager.cs:64-98 | after the shutdown handler, increments, sets and resets change nothing |
| SimManager.ShutdownPermanent | Runtime/GameSimManager.cs:259-264 | no operation lowers the shutdown flag once it is raised |
| SimManager.ResetCounters | Runtime/GameSimManager.cs:250-257 | every registered counter is reset to 0 and nothing else changes; the invariant is kept |
| SimManager.FlushAllCountersToDiskAndReset | Runtime/GameSimManager.cs:240-248 | flushes, then resets every counter when asked (the default) |
| SimManager.ResetAndFlushCounterToDisk | Runtime/GameSimManager.cs:204-232 | an absent name does nothing and writes nothing; a present one hands the writer the text `JsonUtility.ToJson` makes of it ("{}", since no field of Counter is public or `[SerializeField]`) under {name}_{count}.json with the count before the increment; its count is incremented, its value becomes 0 when resetting (the default), its log and series are kept, and other counters are unchanged |
| SimManager.ResetAndFlushCounterToDiskIntended | Runtime/GameSimManager.cs:204-232 | the same registry update and file name, with the file carrying the counter as it was before the update |
| SimManager.FlushTextLosesValue | Runtime/GameSimManager.cs:213-213 | two counters that differ only in their values give the same written text, while the intended files differ |
| SimManager.StoreFlushed | Runtime/GameSimManager.cs:212-218 | the written-out counter's flush number goes up by one (wrapping as a signed 64-bit int) and its value becomes 0 when resetting; log, series and every other counter are kept, and so is the invariant |
| SimManager.Frame | Runtime/TickManager.cs:44-56 | one frame fires the clock's notifications and ticks every registered counter's series that many times; values, names and labels do not change |
| ManagerScenarios.IncrementStep | Runtime/GameSimManager.cs:64-72 | one increment adds to the incremented name's value and appends the name only when it was absent |
| ManagerScenarios.FirstIncrement | Runtime/GameSimManager.cs:40-72 | the first increment on an empty registry registers just that name, holding the amount |
| ManagerScenarios.ScoreSecondIncrement | Runtime/GameSimManager.cs:64-72 | a second increment of "score" by 5 takes its value from 10 to 15 without adding a counter |
| ManagerScenarios.ScoreRegistry | Runtime/GameSimManager.cs:64-72 | on a registry without counters, incrementing "score" by 10 and 5 leaves one counter "score" with value 15 and the flush sequence number untouched |
| ManagerScenarios.ScoreScenario | Runtime/GameSimManager.cs:259-296 | after those increments, shutdown writes counters_0.json holding the one counter "score" with value 15 |
| ManagerScenarios.SnapshotTwice | Runtime/GameSimManager.cs:105-126 | snapshotting twice under "run1" uses "run1" and then "run1-0" |
| ManagerScenarios.IncrementThenResetAndFlush | Tests/Runtime/GameSimManagerTests.cs:14-17 | incrementing then writing out with the default reset hands a file named with the counter's flush number to the writer and leaves the counter at 0; the intended file holds the incremented value |
| ApiClient.SplitValues | Editor/GameSimApiClient.cs:117-117 | one piece per comma-separated part of the string, in order; each piece is its part with white space cut from both ends, none contains ',', and none starts or ends with white space |
| ApiClient.SplitValuesEmpty | Editor/GameSimApiClient.cs:117-117 | an empty value string gives [""] |
| ApiClient.SplitValuesRoundTrip | Editor/GameSimApiClient.cs:117-117 | for a value string without white space, joining the pieces with ',' gives it back |
| ApiClient.SplitValuesIdempotent | Editor/GameSimApiClient.cs:117-117 | splitting and trimming a piece again gives just that piece |
| ApiClient.SplitValuesOfValue | Editor/GameSimApiClient.cs:117-117 | a piece without commas and without surrounding white space splits to itself |
| ApiClient.SplitValuesTrims | Editor/GameSimApiClient.cs:117-117 | two clean values padded with any white space and joined by ',' split back to exactly those two values, as " a , b " gives ["a", "b"] |
| Text.StripFramed | Editor/GameSimApiClient.cs:117-117 | `Trim` returns the one part of the string that has only white space around it and no white space at its ends |
| ApiClient.GetTemplateSettings | Editor/GameSimApiClient.cs:110-126 | one setting per parameter, in enumeration order, with the same key and type and the split-and-trimmed values |
| ApiClient.TemplateKeysDistinct | Editor/GameSimApiClient.cs:113-124 | distinct dictionary keys give settings with distinct keys |
| ApiClient.MinutesToSecondsAsWritten | Editor/GameSimApiClient.cs:162-162 | the 32-bit product is congruent to minutes*60 modulo 2^32 |
| ApiClient.MinutesWrapAsWritten | Editor/GameSimApiClient.cs:162-162 | 35791395 minutes give -2147483596 seconds as written |
| ApiClient.MinutesToSeconds | Editor/GameSimApiClient.cs:162-162 | the seconds divide by 60 to give back the minutes, and are non-negative for non-negative minutes |
| ApiClient.MinutesAgreeInRange | Editor/GameSimApiClient.cs:162-162 | the as-written product equals the exact one whenever the exact one fits in 32 bits |
| ApiClient.CreateJob | Editor/GameSimApiClient.cs:160-172 | the run time is parsed first and the run count second, either failure failing the call; on success the payload copies job name and build id, takes the template settings, run count and defaults, and its seconds field is the decimal text of the wrapped 32-bit product minutes*60 |
| ApiClient.CreateJobSecondsAsWritten | Editor/GameSimApiClient.cs:162-171 | the posted seconds parse back, as an Int32, to the wrapped product of the parsed minutes and 60 |
| ApiClient.CreateJobWrapsAsWritten | Editor/GameSimApiClient.cs:162-171 | for a run time of 35791395 minutes the job posts "-2147483596" seconds where the intended job posts "2147483700" |
| ApiClient.CreateJobIntended | Editor/GameSimApiClient.cs:160-172 | fails exactly as CreateJob does and otherwise posts the same payload, except that the seconds field holds the exact product minutes*60 |
| ApiClient.CreateJobSeconds | Editor/GameSimApiClient.cs:162-171 | the intended seconds field parses back to the parsed minutes times 60 |
| ApiClient.CreateJobAgreesInRange | Editor/GameSimApiClient.cs:162-171 | whenever minutes*60 fits in 32 bits the job as written and the intended job are the same |
| ApiClient.GetAuthHeader | Editor/GameSimApiClient.cs:331-354 | exactly three distinct headers in order: User-Agent "gamesim/0.4.7-preview.1", Content-Type "application/json", Authorization "Bearer " + token |
| ApiClient.AuthTokenRecovered | Editor/GameSimApiClient.cs:346-349 | the token is what follows "Bearer " in the Authorization header |
| Decimal.ParseInt32RoundTrip | Editor/GameSimApiClient.cs:165-165 | Int32.Parse of the decimal string of any 32-bit value gives that value back |
| Decimal.IntToStringParses | Editor/GameSimApiClient.cs:171-171 | the decimal string of an integer parses back to it |
| Decimal.ParseRejectsDigitless | Editor/GameSimApiClient.cs:162-162 | a string without digits is a format error |
| Treeview.RemoveChild | Editor/UIComponents/SimulationParametersTreeview.cs:47-54 | a non-child changes nothing; a child is dropped from the list (first occurrence, order kept) and its parent cleared, nothing else changing |
| Treeview.RemoveNonChild | Editor/UIComponents/SimulationParametersTreeview.cs:49-53 | RemoveChild of an element not in the list is the identity |
| Treeview.RemoveFirstMultiset | Editor/UIComponents/SimulationParametersTreeview.cs:51-51 | List.Remove takes away one copy of the element and nothing else |
| Treeview.RemoveFirstMembers | Editor/UIComponents/SimulationParametersTreeview.cs:51-51 | in a duplicate-free list, the remaining members are exactly the others |
| Treeview.RemoveFirstNoDuplicates | Editor/UIComponents/SimulationParametersTreeview.cs:51-51 | removing keeps a list duplicate-free |
| Treeview.RemoveChildConsistent | Editor/UIComponents/SimulationParametersTreeview.cs:47-54 | removing an element from its recorded parent keeps parent and child links in agreement, and afterwards no list holds it |
| Treeview.DetachConsistent | Editor/UIComponents/SimulationParametersTreeview.cs:36-39 | the first step of AddChild leaves the element under no parent, only its old parent's list losing it |
| Treeview.AddChild | Editor/UIComponents/SimulationParametersTreeview.cs:34-42 | afterwards c's parent is p and p's children are its old children in order, less c when c was recorded under p, followed by c |
| Treeview.AddChildConsistent | Editor/UIComponents/SimulationParametersTreeview.cs:34-42 | in a consistent tree, AddChild keeps the links consistent and c is listed under p only; every other list only loses c |
| Treeview.Upsert | Editor/UIComponents/SimulationParametersTreeview.cs:164-177 | afterwards the key maps to the row's (type, values), other keys are unchanged, and the key is appended only when new |
| Treeview.UpsertIdempotent | Editor/UIComponents/SimulationParametersTreeview.cs:164-177 | upserting the same row twice is the same as once |
| Treeview.RowGui | Editor/UIComponents/SimulationParametersTreeview.cs:130-179 | after a row with at least one column the key maps to (type, final values), where column 3 supplies the edited text; other keys are unchanged |
| Window.FirstWithId | Editor/GameSimWindow.cs:462-469 | the search finds the first setting with the id, or none when no setting has it |
| Window.DeleteSetting | Editor/GameSimWindow.cs:459-471 | only the first setting with the id is removed, the rest keep their order; without a match nothing changes |
| Window.UpdateSetting | Editor/GameSimWindow.cs:472-484 | the first setting with the new setting's id is replaced by it and the length is kept; without a match nothing changes |
| Window.OnSettingChanged | Editor/GameSimWindow.cs:425-485 | (null, s) appends new-key-{old count} with empty type and value; (s, null) deletes by s's id; (s1, s2) updates by s2's id; (null, null) changes nothing |
| Window.AddThenDelete | Editor/GameSimWindow.cs:427-471 | adding a setting under a fresh id and deleting it restores the list |
| Window.UpdateWithSame | Editor/GameSimWindow.cs:472-484 | updating with the setting already stored changes nothing |
| Window.DeleteRemovesOne | Editor/GameSimWindow.cs:459-471 | a delete shortens the list by one on a match, never adds an element |
| Window.AddMetadataToSettings | Editor/GameSimWindow.cs:557-580 | element i is arr[i] wrapped with the i-th entity id, same length |
| Window.PushPayload | Editor/GameSimWindow.cs:1134-1146 | the pushed array holds the rs of each setting in order |
| Window.MetadataRoundTrip | Editor/GameSimWindow.cs:1139-1142 | unwrapping the wrapped array as the push does gives back the original array |
| Window.SerializeScenes | Editor/GameSimWindow.cs:1154-1164 | the keys and values lists have the dictionary's length and pair up to its entries in order |
| Window.AddAll | Editor/GameSimWindow.cs:1172-1175 | successful adds append the pairs in order |
| Window.AddAllSucceeds | Editor/GameSimWindow.cs:1172-1175 | the adds succeed exactly when all keys are distinct |
| Window.AddAllFromEmpty | Editor/GameSimWindow.cs:1166-1175 | adding to the fresh dictionary yields exactly the pairs, and succeeds exactly when their keys are distinct |
| Window.ZipWf | Editor/GameSimWindow.cs:1172-1175 | the zipped pairs have distinct keys exactly when the keys used are distinct |
| Window.DeserializeScenes | Editor/GameSimWindow.cs:1166-1176 | a successful load holds the first min(|keys|, |values|) pairs in order |
| Window.DeserializeSucceeds | Editor/GameSimWindow.cs:1166-1176 | loading succeeds exactly when the used keys are distinct; surplus keys or values are ignored |
| Window.AddUntilDuplicate | Editor/GameSimWindow.cs:1172-1175 | the pairs added before the first repeated key are kept in order, all of them when none repeats, and the repeated key is the one the failed add reports |
| Window.ScenesAfterDeserialize | Editor/GameSimWindow.cs:1166-1176 | the field after loading holds a duplicate-free prefix of the zipped pairs: all of them on success, and on a repeated key the pairs before it |
| Window.ScenesRoundTrip | Editor/GameSimWindow.cs:1154-1176 | serialising then deserialising restores the same scene dictionary |
| BuildRules.MatchesAnchored | Editor/GameSimWindow.cs:920-921 | matching `^[class]{lo,hi}$` holds exactly when some length in [lo, hi] covers the string with class characters, up to at most one final line break |
| BuildRules.BuildNameRule | Editor/GameSimWindow.cs:920-920 | without line breaks, a build name is valid exactly when it has 2 to 63 ASCII letters or digits |
| BuildRules.JobNameRule | Editor/GameSimWindow.cs:921-921 | without line breaks, a job name is valid exactly when it has 2 to 100 ASCII letters, digits or '-' |
| BuildRules.TrailingNewlineAccepted | Editor/GameSimWindow.cs:920-921 | a name followed by one line break is accepted, as .NET's `$` allows |
| BuildRules.AsWrittenMissesDefine | Editor/GameSimWindow.cs:1029-1031 | a symbol that merely ends in UNITY_GAME_SIMULATION, followed by another symbol, passes the test as written, so the build runs without the define |
| BuildRules.AsWrittenMissesDefineExample | Editor/GameSimWindow.cs:1029-1043 | "MY_UNITY_GAME_SIMULATION;X" is such a list: the build as written runs with it unchanged, while the intended build changes it |
| BuildRules.AsWrittenAgreesWithoutSeparator | Editor/GameSimWindow.cs:1029-1031 | for a define list without ';' the test as written and the corrected one agree |
| BuildRules.DuringBuildAsWritten | Editor/GameSimWindow.cs:1029-1043 | when the test as written passes the defines are unchanged; otherwise an empty list becomes just the define and any other list gets it in front with all old symbols kept |
| BuildRules.DuringBuild | Editor/GameSimWindow.cs:1029-1043 | as intended, during the build the define is one of the symbols; an empty list becomes just the define, any other list gets it in front with all old symbols kept |
| BuildRules.BuildDefines | Editor/GameSimWindow.cs:1029-1066 | as written: the build runs with the defines unchanged when the test passes and with the define added otherwise; the defines after the build are the ones before it |
| BuildRules.BuildDefinesIntended | Editor/GameSimWindow.cs:1029-1066 | as intended: the build always runs with the define among its symbols, and the defines afterwards are the ones before it |
| BuildRules.BuildDefinesAgreeWithoutSeparator | Editor/GameSimWindow.cs:1029-1066 | for a define list without ';' the build as written and as intended are the same |

## Left out

- File writes, the Json.NET text of a flush and its byte encoding are left out. A flush yields an abstract record holding the file name, the metadata and the counters. The `JsonUtility` text of a single counter is modelled, as the empty object.
- The model is the build with `UNITY_GAME_SIMULATION` or `UNITY_EDITOR` defined. Without either, the bodies of GameSimManager's public operations and its shutdown flush are compiled out and every operation does nothing.
- Locks, `Interlocked` and double-checked locking are left out. Each public operation is one atomic step.
- The finalizer that unsubscribes a series from `EverySecond` depends on garbage collection and is left out. `SimManager.Frame` ticks the series each counter currently holds. A series replaced by a second `CaptureStepSeries` stays subscribed for the rest of the run, because the static event holds a delegate to it, but it no longer touches any counter the model can observe.
- `Time.deltaTime` and `_secondsLeft` are `float` in the source and `real` here, so float rounding is not modelled.
- `SimManager.Flush`: `_countersSequence` is a 32-bit int in the source and a `nat` here. Its wrap after 2^31 flushes is not modelled.
- The configuration accessors, the instance and attempt ids and the `AddMetaData` callback are left out. The flush metadata is a parameter.
- GUIDs (`Guid.NewGuid`) become parameters: the id of a new setting, and the ids passed to `Window.AddMetadataToSettings`.
- `Decimal.ParseInt32` follows `NumberStyles.Integer` with invariant digits. Trailing NUL characters and culture-specific signs are not modelled.
- The settings array's JSON text round trip (`settings.ToString` and `JArray.Parse`) is left out, as it is JSON library code.
- Networking, polling loops, remote config, analytics, editor preferences, IMGUI drawing and layout, `BuildPipeline` and zipping are external effects and are left out.
- `BuildRules.BuildDefines`: the `runInBackground` and display-dialog settings that a build also saves and restores are left out.
- `Treeview.RowGui` takes the visible column indices and the text the field returns as parameters, because IMGUI drawing is not modelled.
- `ApiClient.CreateJob` returns the payload rather than posting it.
- `BuildRules.AlreadyContainsAsWritten`: `EndsWith(string)` in the source compares with the current culture, and the model compares ordinally. The two differ only on strings with characters the culture ignores or folds.
- `Window.ScenesAfterDeserialize`: the exception a repeated key raises is returned as an error value; Unity's handling of it is not modelled.

## Findings

| source | as written | input that shows it | evidently intended | confidence | as-written member | corrected member |
|---|---|---|---|---|---|---|
| Editor/GameSimApiClient.cs:162 | `Int32.Parse(maxRuntime) * 60` is unchecked 32-bit arithmetic and wraps | maxRuntime "35791395" gives maxRuntimeSeconds "-2147483596" | the run time in seconds, minutes times 60 | high that it wraps (not executed); the input is an absurdly long run time | ApiClient.CreateJobWrapsAsWritten | ApiClient.CreateJobIntended |
| Editor/GameSimWindow.cs:1030 | `Contains("UNITY_GAME_SIMULATION;")` is a substring test, so any symbol ending in the define's name counts | defines "MY_UNITY_GAME_SIMULATION;X" are taken as already defining it, and the build runs without UNITY_GAME_SIMULATION; in that player every GameSimManager operation body is compiled only when UNITY_GAME_SIMULATION or UNITY_EDITOR is defined, so counters are never incremented, set, reset, snapshotted or flushed | the define counts as present only when it is one of the ';'-separated symbols | medium (not executed) | BuildRules.AsWrittenMissesDefine | BuildRules.BuildDefinesIntended |
| Runtime/GameSimManager.cs:213 | `JsonUtility.ToJson(_counters[counter])` serialises a Counter, whose fields are all private or internal with only Json.NET's `[JsonProperty]` | a counter "score" holding 15 is written as "{}" | the file holds the counter's name, value, log and series, as Json.NET writes them for the flush | medium (not executed); the method is marked obsolete and unused | SimManager.FlushTextLosesValue | SimManager.ResetAndFlushCounterToDiskIntended |
