/** The data logic of the GameSim editor window: the remote-config settings
    list and its edits, the metadata wrapper added before a push and removed
    by it, and the scene-selection dictionary's serialisation. */
module Window {
  import opened Wrappers
  import Text
  import Decimal
  import Dict

  /** The `rs` part of a setting: what is pushed to remote config. */
  datatype Rs = Rs(key: string, typeName: string, value: string)

  /** A settings-list entry: `metadata.entityId` and the `rs` object. */
  datatype Setting = Setting(entityId: string, rs: Rs)

  /** The first position whose entity id is `id`. */
  function FirstWithId(settings: seq<Setting>, id: string): (r: Option<nat>)
    ensures r.Some? ==> r.value < |settings| && settings[r.value].entityId == id
    ensures r.Some? ==> forall j :: 0 <= j < r.value ==> settings[j].entityId != id
    ensures r.None? <==> forall j :: 0 <= j < |settings| ==> settings[j].entityId != id
  {
    if |settings| == 0 then None
    else if settings[0].entityId == id then Some(0)
    else
      match FirstWithId(settings[1..], id)
      case None => None
      case Some(i) => Some(i + 1)
  }

  /** A new setting `new-key-{count}` with empty type and value. */
  function NewSetting(count: nat, entityId: string): Setting
  {
    Setting(entityId, Rs("new-key-" + Decimal.NatToString(count), "", ""))
  }

  /** The delete loop: drops the first setting with `id`, if any. */
  function DeleteSetting(settings: seq<Setting>, id: string): (r: seq<Setting>)
    ensures FirstWithId(settings, id).None? ==> r == settings
    ensures FirstWithId(settings, id).Some? ==>
      var i := FirstWithId(settings, id).value;
      |r| == |settings| - 1 && r[..i] == settings[..i] && r[i..] == settings[i + 1..]
  {
    match FirstWithId(settings, id)
    case None => settings
    case Some(i) => settings[..i] + settings[i + 1..]
  }

  /** The update loop: the first setting with `updated`'s id becomes `updated`. */
  function UpdateSetting(settings: seq<Setting>, updated: Setting): (r: seq<Setting>)
    ensures |r| == |settings|
    ensures FirstWithId(settings, updated.entityId).None? ==> r == settings
    ensures FirstWithId(settings, updated.entityId).Some? ==>
      var i := FirstWithId(settings, updated.entityId).value;
      r[i] == updated && forall j :: 0 <= j < |settings| && j != i ==> r[j] == settings[j]
  {
    match FirstWithId(settings, updated.entityId)
    case None => settings
    case Some(i) => settings[i := updated]
  }

  /** The tree view's change callback. (null, s): a new setting is appended
      under the fresh id `newId`; (s, null): the first setting with s's id is
      deleted; (s1, s2): the first setting with s2's id is replaced by s2;
      (null, null): nothing. */
  function OnSettingChanged(settings: seq<Setting>, arg1: Option<Setting>, arg2: Option<Setting>, newId: string): (r: seq<Setting>)
    ensures arg1.None? && arg2.Some? ==> r == settings + [NewSetting(|settings|, newId)]
    ensures arg1.Some? && arg2.None? ==> r == DeleteSetting(settings, arg1.value.entityId)
    ensures arg1.Some? && arg2.Some? ==> r == UpdateSetting(settings, arg2.value)
    ensures arg1.None? && arg2.None? ==> r == settings
  {
    if arg1.None? && arg2.Some? then settings + [NewSetting(|settings|, newId)]
    else if arg1.Some? && arg2.None? then DeleteSetting(settings, arg1.value.entityId)
    else if arg1.Some? then UpdateSetting(settings, arg2.value)
    else settings
  }

  /** Adding a setting under a fresh id and then deleting it restores the list. */
  lemma AddThenDelete(settings: seq<Setting>, s: Setting, newId: string)
    requires forall j :: 0 <= j < |settings| ==> settings[j].entityId != newId
    ensures var added := OnSettingChanged(settings, None, Some(s), newId);
      OnSettingChanged(added, Some(NewSetting(|settings|, newId)), None, "") == settings
  {
    var added := settings + [NewSetting(|settings|, newId)];
    assert added[..|settings|] == settings;
    assert added[|settings|].entityId == newId;
    assert forall j :: 0 <= j < |settings| ==> added[j] == settings[j];
  }

  /** Updating with the setting already stored changes nothing. */
  lemma UpdateWithSame(settings: seq<Setting>, i: nat)
    requires i < |settings| && FirstWithId(settings, settings[i].entityId) == Some(i)
    ensures UpdateSetting(settings, settings[i]) == settings
  {
  }

  /** Deleting leaves the other settings in their order: the result is the
      list with one element taken out, and nothing is removed when the id is
      absent. */
  lemma DeleteRemovesOne(settings: seq<Setting>, id: string)
    ensures |DeleteSetting(settings, id)| == (if FirstWithId(settings, id).Some? then |settings| - 1 else |settings|)
    ensures multiset(DeleteSetting(settings, id)) <= multiset(settings)
  {
    match FirstWithId(settings, id)
    case None =>
    case Some(i) =>
      assert settings == settings[..i] + [settings[i]] + settings[i + 1..];
  }

  /** AddMetadataToSettings: each `rs` wrapped with its own fresh entity id
      (`ids` stands for the generated GUIDs, one per element). */
  function AddMetadataToSettings(arr: seq<Rs>, ids: seq<string>): (r: seq<Setting>)
    requires |ids| == |arr|
    ensures |r| == |arr|
    ensures forall i :: 0 <= i < |r| ==> r[i].entityId == ids[i] && r[i].rs == arr[i]
  {
    seq(|arr|, i requires 0 <= i < |arr| => Setting(ids[i], arr[i]))
  }

  /** The body of PushSettings: the `rs` of every setting, in order. */
  function PushPayload(settings: seq<Setting>): (r: seq<Rs>)
    ensures |r| == |settings|
    ensures forall i :: 0 <= i < |r| ==> r[i] == settings[i].rs
  {
    seq(|settings|, i requires 0 <= i < |settings| => settings[i].rs)
  }

  /** Wrapping with metadata and unwrapping as the push does gives back the
      original array, element for element. */
  lemma MetadataRoundTrip(arr: seq<Rs>, ids: seq<string>)
    requires |ids| == |arr|
    ensures PushPayload(AddMetadataToSettings(arr, ids)) == arr
  {
  }

  /** OnBeforeSerialize: the keys and the values in enumeration order. */
  function SerializeScenes(scenes: Dict.Dict<string, bool>): (r: (seq<string>, seq<bool>))
    ensures |r.0| == |r.1| == |scenes|
    ensures forall i :: 0 <= i < |scenes| ==> scenes[i] == (r.0[i], r.1[i])
  {
    (Dict.Keys(scenes), Dict.Values(scenes))
  }

  /** Dictionary.Add of each pair in order; a repeated key throws. */
  function AddAll(d: Dict.Dict<string, bool>, pairs: seq<(string, bool)>): (r: Result<Dict.Dict<string, bool>, Dict.DuplicateKey<string>>)
    ensures r.Ok? ==> r.value == d + pairs
    decreases |pairs|
  {
    if |pairs| == 0 then Ok(d)
    else
      match Dict.Add(d, pairs[0].0, pairs[0].1)
      case Err(e) => Err(e)
      case Ok(d1) =>
        var r := AddAll(d1, pairs[1..]);
        assert d1 + pairs[1..] == d + pairs;
        r
  }

  /** Starting from distinct keys, the adds all succeed exactly when the
      combined keys are distinct. */
  lemma {:induction false} AddAllSucceeds(d: Dict.Dict<string, bool>, pairs: seq<(string, bool)>)
    requires Dict.Wf(d)
    ensures AddAll(d, pairs).Ok? <==> Dict.Wf(d + pairs)
    decreases |pairs|
  {
    if |pairs| > 0 {
      var k := pairs[0].0;
      match Dict.Add(d, k, pairs[0].1)
      case Err(_) =>
        var i :| 0 <= i < |d| && d[i].0 == k;
        assert (d + pairs)[i].0 == (d + pairs)[|d|].0;
      case Ok(d1) =>
        AddAllSucceeds(d1, pairs[1..]);
        assert d1 + pairs[1..] == d + pairs;
    }
  }

  /** The key and value lists paired up to the shorter length. */
  function Zip(keys: seq<string>, values: seq<bool>): (r: seq<(string, bool)>)
    ensures |r| == if |keys| < |values| then |keys| else |values|
    ensures forall i :: 0 <= i < |r| ==> r[i] == (keys[i], values[i])
  {
    var n := if |keys| < |values| then |keys| else |values|;
    seq(n, i requires 0 <= i < n => (keys[i], values[i]))
  }

  /** The zipped pairs have distinct keys exactly when the used keys are distinct. */
  lemma ZipWf(keys: seq<string>, values: seq<bool>)
    ensures var n := if |keys| < |values| then |keys| else |values|;
      Dict.Wf(Zip(keys, values)) <==> forall i, j :: 0 <= i < j < n ==> keys[i] != keys[j]
  {
    var pairs := Zip(keys, values);
    assert forall i :: 0 <= i < |pairs| ==> pairs[i].0 == keys[i];
  }

  /** Adding to an empty dictionary yields the pairs themselves. */
  lemma AddAllFromEmpty(pairs: seq<(string, bool)>)
    ensures AddAll([], pairs).Ok? ==> AddAll([], pairs).value == pairs
    ensures AddAll([], pairs).Ok? <==> Dict.Wf(pairs)
  {
    AddAllSucceeds([], pairs);
    assert [] + pairs == pairs;
  }

  /** OnAfterDeserialize: the first min(|keys|, |values|) pairs added in order. */
  function DeserializeScenes(keys: seq<string>, values: seq<bool>): (r: Result<Dict.Dict<string, bool>, Dict.DuplicateKey<string>>)
    ensures var n := if |keys| < |values| then |keys| else |values|;
      r.Ok? ==> |r.value| == n && forall i :: 0 <= i < n ==> r.value[i] == (keys[i], values[i])
  {
    var pairs := Zip(keys, values);
    AddAllFromEmpty(pairs);
    AddAll([], pairs)
  }

  /** What the field holds after the add loop, whether or not an add threw:
      the pairs added before the first repeated key, or all of them. */
  function AddUntilDuplicate(d: Dict.Dict<string, bool>, pairs: seq<(string, bool)>): (r: Dict.Dict<string, bool>)
    ensures |d| <= |r| <= |d| + |pairs| && r == d + pairs[..|r| - |d|]
    ensures AddAll(d, pairs).Ok? ==> r == AddAll(d, pairs).value
    ensures Dict.Wf(d) ==> Dict.Wf(r)
    ensures AddAll(d, pairs).Err? ==>
      && |r| < |d| + |pairs|
      && Dict.HasKey(r, pairs[|r| - |d|].0)
      && AddAll(d, pairs).error == Dict.DuplicateKey(pairs[|r| - |d|].0)
    decreases |pairs|
  {
    if |pairs| == 0 then d
    else
      match Dict.Add(d, pairs[0].0, pairs[0].1)
      case Err(_) => d
      case Ok(d1) =>
        var r := AddUntilDuplicate(d1, pairs[1..]);
        assert d1 + pairs[1..][..|r| - |d1|] == d + pairs[..|r| - |d|];
        r
  }

  /** OnAfterDeserialize as the field sees it: a fresh dictionary is assigned
      first, so after a repeated key it keeps the pairs added before it. */
  function ScenesAfterDeserialize(keys: seq<string>, values: seq<bool>): (r: Dict.Dict<string, bool>)
    ensures DeserializeScenes(keys, values).Ok? ==> r == DeserializeScenes(keys, values).value
    ensures var n := if |keys| < |values| then |keys| else |values|;
      && |r| <= n && Dict.Wf(r)
      && (forall i :: 0 <= i < |r| ==> r[i] == (keys[i], values[i]))
      && (DeserializeScenes(keys, values).Err? ==>
            |r| < n && Dict.HasKey(r, keys[|r|]) && DeserializeScenes(keys, values).error == Dict.DuplicateKey(keys[|r|]))
  {
    var pairs := Zip(keys, values);
    var r := AddUntilDuplicate([], pairs);
    AddAllFromEmpty(pairs);
    assert r == pairs[..|r|];
    r
  }

  /** Deserialising succeeds exactly when the used keys are distinct, and
      extra keys or values beyond the shorter list are ignored. */
  lemma DeserializeSucceeds(keys: seq<string>, values: seq<bool>)
    ensures var n := if |keys| < |values| then |keys| else |values|;
      DeserializeScenes(keys, values).Ok? <==> forall i, j :: 0 <= i < j < n ==> keys[i] != keys[j]
  {
    AddAllFromEmpty(Zip(keys, values));
    ZipWf(keys, values);
  }

  /** Serialising then deserialising restores the same scene dictionary. */
  lemma ScenesRoundTrip(scenes: Dict.Dict<string, bool>)
    requires Dict.Wf(scenes)
    ensures DeserializeScenes(SerializeScenes(scenes).0, SerializeScenes(scenes).1) == Ok(scenes)
  {
    var (keys, values) := SerializeScenes(scenes);
    var pairs := Zip(keys, values);
    assert pairs == scenes;
    AddAllFromEmpty(pairs);
  }
}
