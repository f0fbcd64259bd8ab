/** src/constants/presets.ts: the four built-in configurations, and the
    page's list of every configuration (src/app/page.tsx:39) with the lookup
    a history entry is reused through (src/app/page.tsx:84-89). */
module Presets {
  import opened Wrappers
  import opened Types

  const AllPreset: Config :=
    Config("all", "万能模式", All, None, None, Some("🚀"), Some("自动提取并注入所有登录数据"), None, None)
  const TokenPreset: Config :=
    Config("token", "认证令牌", LocalStorage, Some("token"), None, Some("🔑"), Some("localStorage中的认证令牌"), None, None)
  const UserInfoPreset: Config :=
    Config("userInfo", "用户信息", LocalStorage, Some("userInfo"), None, Some("👤"), Some("用户信息和配置数据"), None, None)
  const AuthTokenPreset: Config :=
    Config("authToken", "Bearer令牌", Cookie, Some("authToken"), None, Some("🛡️"), Some("Bearer认证令牌"), None, None)

  /** `PRESET_CONFIGS` (lines 3-35). */
  const PresetConfigs: seq<Config> := [AllPreset, TokenPreset, UserInfoPreset, AuthTokenPreset]

  /** The table's invariants: four presets with distinct ids; the "all"
      preset has no key; every other one has its id as its key; none is
      marked custom or dated. */
  lemma PresetTable()
    ensures |PresetConfigs| == 4
    ensures forall i, j :: 0 <= i < j < |PresetConfigs| ==> PresetConfigs[i].id != PresetConfigs[j].id
    ensures forall c :: c in PresetConfigs ==> (c.source == All <==> c.key.None?)
    ensures forall c :: c in PresetConfigs && c.source != All ==> c.key == Some(c.id) && c.id != ""
    ensures forall c :: c in PresetConfigs ==> c.isCustom.None? && c.createdAt.None?
    ensures TokenPreset.source == LocalStorage && UserInfoPreset.source == LocalStorage && AuthTokenPreset.source == Cookie
  {
    assert AllPreset.id[0] == 'a' && AllPreset.id[1] == 'l';
    assert TokenPreset.id[0] == 't';
    assert UserInfoPreset.id[0] == 'u';
    assert AuthTokenPreset.id[0] == 'a' && AuthTokenPreset.id[1] == 'u';
  }

  /** `[...PRESET_CONFIGS, ...customConfigs]` (src/app/page.tsx:39). */
  function AllConfigs(custom: seq<Config>): seq<Config> {
    PresetConfigs + custom
  }

  /** `configs.find(c => c.id === id)`: the first configuration with the
      id. */
  function FindConfig(configs: seq<Config>, id: string): (r: Option<Config>)
    ensures r.None? <==> forall c :: c in configs ==> c.id != id
    ensures r.Some? ==> r.value in configs && r.value.id == id
    ensures r.Some? ==> exists i :: 0 <= i < |configs| && configs[i] == r.value &&
                                (forall j :: 0 <= j < i ==> configs[j].id != id)
    decreases |configs|
  {
    if configs == [] then None
    else if configs[0].id == id then Some(configs[0])
    else
      var r := FindConfig(configs[1..], id);
      assert forall c :: c in configs ==> c == configs[0] || c in configs[1..];
      if r.Some? then
        var i :| 0 <= i < |configs[1..]| && configs[1..][i] == r.value &&
                 (forall j :: 0 <= j < i ==> configs[1..][j].id != id);
        assert configs[i + 1] == r.value;
        r
      else r
  }

  /** The lookup finds in a prefix of the list what it would find in the
      prefix alone. */
  lemma {:induction false} FindInPrefix(front: seq<Config>, back: seq<Config>, id: string)
    requires FindConfig(front, id).Some?
    ensures FindConfig(front + back, id) == FindConfig(front, id)
    decreases |front|
  {
    assert (front + back)[0] == front[0];
    if front[0].id != id {
      assert (front + back)[1..] == front[1..] + back;
      FindInPrefix(front[1..], back, id);
    }
  }

  /** `handleUseHistoryRecord` (src/app/page.tsx:84-89): the configuration
      the record was made with, looked up by its id. */
  function ReusedConfig(record: HistoryRecord, custom: seq<Config>): Option<Config> {
    FindConfig(AllConfigs(custom), record.configId)
  }

  /** A record of a preset always finds that preset, whatever the custom
      configurations are: the presets come first. */
  lemma PresetRecordsReuse(record: HistoryRecord, custom: seq<Config>, i: nat)
    requires i < |PresetConfigs| && record.configId == PresetConfigs[i].id
    ensures ReusedConfig(record, custom) == Some(PresetConfigs[i])
  {
    PresetTable();
    assert FindConfig(PresetConfigs, record.configId) == Some(PresetConfigs[i]);
    FindInPrefix(PresetConfigs, custom, record.configId);
  }

  /** A record whose configuration was deleted finds nothing, and is not
      reused. */
  lemma DeletedConfigNotReused(record: HistoryRecord, custom: seq<Config>)
    requires forall c :: c in AllConfigs(custom) ==> c.id != record.configId
    ensures ReusedConfig(record, custom).None?
  {
  }
}
