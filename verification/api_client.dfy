/** The request payloads GameSimApiClient builds: the decision-engine
    settings of a job, the create-job body and the authorization headers.
    The web requests themselves are not modelled. */
module ApiClient {
  import opened Wrappers
  import opened Ints
  import Text
  import Decimal
  import Dict

  /** One parameter of the grid search: its key, its type name and the
      candidate values. */
  datatype DESetting = DESetting(key: string, typeName: string, values: seq<string>)

  const ENGINE_TYPE: string := "gridsearch"
  const PARALLELISM: Int32 := 10

  datatype DecisionEngineMetadata = DecisionEngineMetadata(
    engineType: string,
    runsPerParamCombo: Int32,
    parallelism: Int32,
    settings: seq<DESetting>)

  datatype CreateJobPayload = CreateJobPayload(
    jobName: string,
    buildId: string,
    maxRuntimeSeconds: string,
    testInfo: seq<string>,
    decisionEngineMetadata: DecisionEngineMetadata)

  /** Every character of every piece of a split comes from the split string. */
  lemma {:induction false} SplitChars(s: string, sep: char)
    ensures forall i, j :: 0 <= i < |Text.Split(s, sep)| && 0 <= j < |Text.Split(s, sep)[i]| ==> Text.Split(s, sep)[i][j] in s
  {
    if |s| > 0 {
      SplitChars(s[1..], sep);
      var rest := Text.Split(s[1..], sep);
      var parts := Text.Split(s, sep);
      forall i, j | 0 <= i < |parts| && 0 <= j < |parts[i]| ensures parts[i][j] in s {
        if s[0] == sep {
          if i > 0 {
            assert parts[i] == rest[i - 1];
            assert parts[i][j] in s[1..];
          }
        } else if i == 0 {
          assert parts[0] == [s[0]] + rest[0];
          if j > 0 {
            assert parts[0][j] == rest[0][j - 1];
            assert rest[0][j - 1] in s[1..];
          }
        } else {
          assert parts[i] == rest[i];
          assert parts[i][j] in s[1..];
        }
      }
    }
  }

  /** Every character of a stripped string comes from the original. */
  lemma StripChars(s: string, p: char -> bool)
    ensures forall j :: 0 <= j < |Text.Strip(s, p)| ==> Text.Strip(s, p)[j] in s
  {
    var r := Text.Strip(s, p);
    var a :| Text.Framed(s, r, a, p);
    forall j | 0 <= j < |r| ensures r[j] in s {
      assert r[j] == s[a + j];
    }
  }

  /** A value as SplitValues produces it: no ',' and no white space at either end. */
  predicate CleanValue(v: string)
  {
    && ',' !in v
    && (|v| > 0 ==> !Text.IsWhiteSpace(v[0]) && !Text.IsWhiteSpace(v[|v| - 1]))
  }

  /** `v` is `piece` with some white space cut from either end. */
  predicate TrimmedFrom(piece: string, v: string)
  {
    exists a :: 0 <= a <= |piece| && Text.Framed(piece, v, a, Text.IsWhiteSpace)
  }

  /** `values.Split(',').Select(s => s.Trim())`: the comma-separated
      pieces, white space trimmed, in order. */
  function SplitValues(values: string): (r: seq<string>)
    ensures |r| == Text.Count(values, ',') + 1
    ensures forall i :: 0 <= i < |r| ==> CleanValue(r[i])
    ensures |r| == |Text.Split(values, ',')|
    ensures forall i :: 0 <= i < |r| ==> TrimmedFrom(Text.Split(values, ',')[i], r[i])
  {
    var parts := Text.Split(values, ',');
    var r := seq(|parts|, i requires 0 <= i < |parts| => Text.Trim(parts[i]));
    forall i | 0 <= i < |r| ensures ',' !in r[i] && TrimmedFrom(parts[i], r[i]) {
      StripChars(parts[i], Text.IsWhiteSpace);
      var a :| Text.Framed(parts[i], Text.Strip(parts[i], Text.IsWhiteSpace), a, Text.IsWhiteSpace);
      assert Text.Framed(parts[i], r[i], a, Text.IsWhiteSpace);
    }
    r
  }

  /** A string without white space comes back whole from joining its pieces. */
  lemma SplitValuesRoundTrip(values: string)
    requires forall i :: 0 <= i < |values| ==> !Text.IsWhiteSpace(values[i])
    ensures Text.Join(SplitValues(values), ',') == values
  {
    var parts := Text.Split(values, ',');
    SplitChars(values, ',');
    assert SplitValues(values) == parts by {
      forall i | 0 <= i < |parts| ensures Text.Trim(parts[i]) == parts[i] {
        if |parts[i]| > 0 {
          assert parts[i][0] in values;
          assert parts[i][|parts[i]| - 1] in values;
          Text.StripUnpadded(parts[i], Text.IsWhiteSpace);
        }
      }
    }
    Text.JoinSplit(values, ',');
  }

  /** A value padded with white space on both sides trims back to itself. */
  lemma TrimPadded(pre: string, v: string, post: string)
    requires forall i :: 0 <= i < |pre| ==> Text.IsWhiteSpace(pre[i])
    requires forall i :: 0 <= i < |post| ==> Text.IsWhiteSpace(post[i])
    requires |v| > 0 ==> !Text.IsWhiteSpace(v[0]) && !Text.IsWhiteSpace(v[|v| - 1])
    ensures Text.Trim(pre + v + post) == v
  {
    var s := pre + v + post;
    assert s[|pre|..|pre| + |v|] == v;
    assert forall i :: |pre| + |v| <= i < |s| ==> s[i] == post[i - |pre| - |v|];
    Text.StripFramed(s, v, |pre|, Text.IsWhiteSpace);
  }

  /** Two comma-free pieces joined by a comma give the two pieces, trimmed. */
  lemma SplitValuesTwo(u: string, w: string)
    requires ',' !in u && ',' !in w
    ensures SplitValues(u + [','] + w) == [Text.Trim(u), Text.Trim(w)]
  {
    Text.SplitHead(u, ',', w);
    Text.SplitNoSep(w, ',');
  }

  /** A padded value holds no comma when the value holds none. */
  lemma PaddedNoComma(pre: string, v: string, post: string)
    requires forall i :: 0 <= i < |pre| ==> Text.IsWhiteSpace(pre[i])
    requires forall i :: 0 <= i < |post| ==> Text.IsWhiteSpace(post[i])
    requires ',' !in v
    ensures ',' !in pre + v + post
  {
    assert !Text.IsWhiteSpace(',');
  }

  /** Two comma-separated values give the two values, each stripped of the
      white space around it: " a , b " gives ["a", "b"]. */
  lemma SplitValuesTrims(pre1: string, v1: string, post1: string, pre2: string, v2: string, post2: string)
    requires forall i :: 0 <= i < |pre1| ==> Text.IsWhiteSpace(pre1[i])
    requires forall i :: 0 <= i < |post1| ==> Text.IsWhiteSpace(post1[i])
    requires forall i :: 0 <= i < |pre2| ==> Text.IsWhiteSpace(pre2[i])
    requires forall i :: 0 <= i < |post2| ==> Text.IsWhiteSpace(post2[i])
    requires CleanValue(v1) && CleanValue(v2)
    ensures SplitValues(pre1 + v1 + post1 + "," + pre2 + v2 + post2) == [v1, v2]
  {
    var u, w := pre1 + v1 + post1, pre2 + v2 + post2;
    PaddedNoComma(pre1, v1, post1);
    PaddedNoComma(pre2, v2, post2);
    assert pre1 + v1 + post1 + "," + pre2 + v2 + post2 == u + [','] + w;
    SplitValuesTwo(u, w);
    TrimPadded(pre1, v1, post1);
    TrimPadded(pre2, v2, post2);
  }

  /** An empty value string gives one empty value. */
  lemma SplitValuesEmpty()
    ensures SplitValues("") == [""]
  {
    assert Text.Trim("") == "";
  }

  /** Splitting then trimming again changes nothing: the pieces are already
      separator-free and trimmed. */
  lemma SplitValuesIdempotent(values: string)
    ensures forall i :: 0 <= i < |SplitValues(values)| ==> SplitValues(SplitValues(values)[i]) == [SplitValues(values)[i]]
  {
    var r := SplitValues(values);
    forall i | 0 <= i < |r| ensures SplitValues(r[i]) == [r[i]] {
      SplitValuesOfValue(r[i]);
    }
  }

  /** A separator-free, trimmed value splits into itself alone. */
  lemma SplitValuesOfValue(v: string)
    requires CleanValue(v)
    ensures SplitValues(v) == [v]
  {
    Text.SplitNoSep(v, ',');
    if |v| > 0 {
      Text.StripUnpadded(v, Text.IsWhiteSpace);
    } else {
      assert Text.Trim("") == "";
    }
  }

  /** One setting per parameter, in the parameters' enumeration order, with
      the same key and type and the split-and-trimmed values. */
  function GetTemplateSettings(parameters: Dict.Dict<string, (string, string)>): (r: seq<DESetting>)
    ensures |r| == |parameters|
    ensures forall i :: 0 <= i < |r| ==> r[i].key == parameters[i].0 && r[i].typeName == parameters[i].1.0
    ensures forall i :: 0 <= i < |r| ==> r[i].values == SplitValues(parameters[i].1.1)
  {
    seq(|parameters|, i requires 0 <= i < |parameters| =>
      DESetting(parameters[i].0, parameters[i].1.0, SplitValues(parameters[i].1.1)))
  }

  /** A dictionary has one setting per key: distinct keys give distinct settings' keys. */
  lemma TemplateKeysDistinct(parameters: Dict.Dict<string, (string, string)>)
    requires Dict.Wf(parameters)
    ensures forall i, j :: 0 <= i < j < |GetTemplateSettings(parameters)| ==>
      GetTemplateSettings(parameters)[i].key != GetTemplateSettings(parameters)[j].key
  {
  }

  /** `Int32.Parse(maxRuntime) * 60` as written: unchecked 32-bit
      multiplication, which wraps. */
  function MinutesToSecondsAsWritten(minutes: Int32): (r: Int32)
    ensures (minutes * 60 - r) % TWO_32 == 0
  {
    Wrap32(minutes * 60)
  }

  /** 35791395 minutes wrap to a negative number of seconds. */
  lemma MinutesWrapAsWritten()
    ensures MinutesToSecondsAsWritten(35791395) == -2147483596
    ensures 35791395 * 60 == 2147483700
  {
    Wrap32Unique(35791395 * 60, -2147483596);
  }

  /** The number of seconds in `minutes` minutes, exactly. */
  function MinutesToSeconds(minutes: Int32): (r: int)
    ensures r / 60 == minutes && r % 60 == 0
    ensures minutes >= 0 ==> r >= 0
  {
    minutes * 60
  }

  /** Within the 32-bit range the source's product and the exact one agree. */
  lemma MinutesAgreeInRange(minutes: Int32)
    requires MIN_INT32 <= minutes * 60 <= MAX_INT32
    ensures MinutesToSecondsAsWritten(minutes) == MinutesToSeconds(minutes)
  {
  }

  /** The create-job body as written: the run time is parsed first, then the
      run count, either one failing the call; job name and build id are
      copied, the settings derived from the parameters, the defaults kept,
      and the seconds field is the wrapping 32-bit product in decimal. */
  function CreateJob(jobName: string, buildId: string, parameters: Dict.Dict<string, (string, string)>, maxRuns: string, maxRuntime: string): (r: Result<CreateJobPayload, Decimal.ParseError>)
    ensures Decimal.ParseInt32(maxRuntime).Err? ==> r == Err(Decimal.ParseInt32(maxRuntime).error)
    ensures Decimal.ParseInt32(maxRuntime).Ok? && Decimal.ParseInt32(maxRuns).Err? ==> r == Err(Decimal.ParseInt32(maxRuns).error)
    ensures r.Ok? <==> Decimal.ParseInt32(maxRuntime).Ok? && Decimal.ParseInt32(maxRuns).Ok?
    ensures r.Ok? ==>
      && r.value.jobName == jobName && r.value.buildId == buildId
      && r.value.testInfo == []
      && r.value.decisionEngineMetadata.engineType == ENGINE_TYPE
      && r.value.decisionEngineMetadata.parallelism == PARALLELISM
      && r.value.decisionEngineMetadata.runsPerParamCombo == Decimal.ParseInt32(maxRuns).value
      && r.value.decisionEngineMetadata.settings == GetTemplateSettings(parameters)
    ensures r.Ok? ==> r.value.maxRuntimeSeconds == Decimal.IntToString(MinutesToSecondsAsWritten(Decimal.ParseInt32(maxRuntime).value))
  {
    match Decimal.ParseInt32(maxRuntime)
    case Err(e) => Err(e)
    case Ok(minutes) =>
      match Decimal.ParseInt32(maxRuns)
      case Err(e) => Err(e)
      case Ok(runs) =>
        var metadata := DecisionEngineMetadata(ENGINE_TYPE, runs, PARALLELISM, GetTemplateSettings(parameters));
        Ok(CreateJobPayload(jobName, buildId, Decimal.IntToString(MinutesToSecondsAsWritten(minutes)), [], metadata))
  }

  /** The seconds field as written reads back, as an Int32, as the wrapped
      product of the parsed minutes and sixty. */
  lemma CreateJobSecondsAsWritten(jobName: string, buildId: string, parameters: Dict.Dict<string, (string, string)>, maxRuns: string, maxRuntime: string)
    requires Decimal.ParseInt32(maxRuntime).Ok? && Decimal.ParseInt32(maxRuns).Ok?
    ensures Decimal.ParseInt32(CreateJob(jobName, buildId, parameters, maxRuns, maxRuntime).value.maxRuntimeSeconds)
      == Ok(MinutesToSecondsAsWritten(Decimal.ParseInt32(maxRuntime).value))
  {
    Decimal.ParseInt32RoundTrip(MinutesToSecondsAsWritten(Decimal.ParseInt32(maxRuntime).value));
  }

  /** The create-job body as intended: the same payload, with the seconds
      field holding the exact number of seconds. */
  function CreateJobIntended(jobName: string, buildId: string, parameters: Dict.Dict<string, (string, string)>, maxRuns: string, maxRuntime: string): (r: Result<CreateJobPayload, Decimal.ParseError>)
    ensures var w := CreateJob(jobName, buildId, parameters, maxRuns, maxRuntime);
      && (w.Err? ==> r == w)
      && (w.Ok? ==> r.Ok? && r.value.(maxRuntimeSeconds := w.value.maxRuntimeSeconds) == w.value)
    ensures r.Ok? ==> r.value.maxRuntimeSeconds == Decimal.IntToString(MinutesToSeconds(Decimal.ParseInt32(maxRuntime).value))
  {
    match CreateJob(jobName, buildId, parameters, maxRuns, maxRuntime)
    case Err(e) => Err(e)
    case Ok(p) =>
      Ok(p.(maxRuntimeSeconds := Decimal.IntToString(MinutesToSeconds(Decimal.ParseInt32(maxRuntime).value))))
  }

  /** The intended seconds field reads back as the parsed minutes times sixty. */
  lemma CreateJobSeconds(jobName: string, buildId: string, parameters: Dict.Dict<string, (string, string)>, maxRuns: string, maxRuntime: string)
    requires Decimal.ParseInt32(maxRuntime).Ok? && Decimal.ParseInt32(maxRuns).Ok?
    ensures Decimal.ParseInteger(CreateJobIntended(jobName, buildId, parameters, maxRuns, maxRuntime).value.maxRuntimeSeconds)
      == Ok(Decimal.ParseInt32(maxRuntime).value * 60)
  {
    Decimal.IntToStringParses(Decimal.ParseInt32(maxRuntime).value * 60);
  }

  /** The two bodies agree whenever the exact product fits in 32 bits. */
  lemma CreateJobAgreesInRange(jobName: string, buildId: string, parameters: Dict.Dict<string, (string, string)>, maxRuns: string, maxRuntime: string)
    requires Decimal.ParseInt32(maxRuntime).Ok?
    requires MIN_INT32 <= Decimal.ParseInt32(maxRuntime).value * 60 <= MAX_INT32
    ensures CreateJobIntended(jobName, buildId, parameters, maxRuns, maxRuntime) == CreateJob(jobName, buildId, parameters, maxRuns, maxRuntime)
  {
    MinutesAgreeInRange(Decimal.ParseInt32(maxRuntime).value);
  }

  /** Run time 35791395 minutes: the job as written posts "-2147483596"
      seconds where the intended job posts "2147483700". */
  lemma CreateJobWrapsAsWritten(jobName: string, buildId: string, parameters: Dict.Dict<string, (string, string)>, maxRuns: string, maxRuntime: string)
    requires Decimal.ParseInt32(maxRuntime) == Ok(35791395) && Decimal.ParseInt32(maxRuns).Ok?
    ensures CreateJob(jobName, buildId, parameters, maxRuns, maxRuntime).value.maxRuntimeSeconds == Decimal.IntToString(-2147483596)
    ensures CreateJobIntended(jobName, buildId, parameters, maxRuns, maxRuntime).value.maxRuntimeSeconds == Decimal.IntToString(2147483700)
    ensures Decimal.IntToString(-2147483596) != Decimal.IntToString(2147483700)
  {
    MinutesWrapAsWritten();
  }

  const PACKAGE_VERSION: string := "0.4.7-preview.1"
  const USER_AGENT: string := "User-Agent"
  const CONTENT_TYPE: string := "Content-Type"
  const AUTHORIZATION: string := "Authorization"

  const USER_AGENT_VALUE: string := "gamesim/" + PACKAGE_VERSION
  const JSON_CONTENT: string := "application/json"

  /** The three writes into a fresh dictionary append three entries in order. */
  lemma AuthHeaderEntries(token: string)
    ensures Dict.Set(Dict.Set(Dict.Set([], USER_AGENT, USER_AGENT_VALUE), CONTENT_TYPE, JSON_CONTENT), AUTHORIZATION, "Bearer " + token)
      == [(USER_AGENT, USER_AGENT_VALUE), (CONTENT_TYPE, JSON_CONTENT), (AUTHORIZATION, "Bearer " + token)]
  {
    assert |USER_AGENT| == 10 && |CONTENT_TYPE| == 12 && |AUTHORIZATION| == 13;
    Dict.SetThreeAbsent(USER_AGENT, CONTENT_TYPE, AUTHORIZATION, USER_AGENT_VALUE, JSON_CONTENT, "Bearer " + token);
  }

  /** The request headers: user agent, JSON content type and the bearer token. */
  function GetAuthHeader(token: string): (r: Dict.Dict<string, string>)
    ensures |r| == 3 && Dict.Wf(r)
    ensures Dict.Keys(r) == [USER_AGENT, CONTENT_TYPE, AUTHORIZATION]
    ensures Dict.Get(r, USER_AGENT) == Some("gamesim/" + PACKAGE_VERSION)
    ensures Dict.Get(r, CONTENT_TYPE) == Some("application/json")
    ensures Dict.Get(r, AUTHORIZATION) == Some("Bearer " + token)
  {
    var d1 := Dict.Set([], USER_AGENT, USER_AGENT_VALUE);
    var d2 := Dict.Set(d1, CONTENT_TYPE, JSON_CONTENT);
    var d3 := Dict.Set(d2, AUTHORIZATION, "Bearer " + token);
    AuthHeaderEntries(token);
    AuthHeaderLookups([(USER_AGENT, USER_AGENT_VALUE), (CONTENT_TYPE, JSON_CONTENT), (AUTHORIZATION, "Bearer " + token)]);
    d3
  }

  /** The three header entries have distinct keys, each found with its value. */
  lemma AuthHeaderLookups(d: Dict.Dict<string, string>)
    requires |d| == 3 && d[0].0 == USER_AGENT && d[1].0 == CONTENT_TYPE && d[2].0 == AUTHORIZATION
    ensures Dict.Wf(d)
    ensures Dict.Keys(d) == [USER_AGENT, CONTENT_TYPE, AUTHORIZATION]
    ensures Dict.Get(d, USER_AGENT) == Some(d[0].1)
    ensures Dict.Get(d, CONTENT_TYPE) == Some(d[1].1)
    ensures Dict.Get(d, AUTHORIZATION) == Some(d[2].1)
  {
    assert USER_AGENT[0] != CONTENT_TYPE[0] && CONTENT_TYPE[0] != AUTHORIZATION[0] && AUTHORIZATION[0] != USER_AGENT[0];
    Dict.WfGet(d, 0);
    Dict.WfGet(d, 1);
    Dict.WfGet(d, 2);
  }

  /** The token can be read back from the Authorization header. */
  lemma AuthTokenRecovered(token: string)
    ensures var h := Dict.Get(GetAuthHeader(token), AUTHORIZATION).value;
      Text.StartsWith(h, "Bearer ") && h[7..] == token
  {
  }
}
