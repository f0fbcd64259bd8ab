/** src/hooks/useCustomConfigs.ts: the user's own configurations, in the
    order they were added, persisted under "autologin-custom-configs". */
module CustomConfigs {
  import opened Wrappers
  import opened Text
  import opened Types
  import opened Seqs
  import opened Persistence

  const CustomConfigsKey: string := "autologin-custom-configs"

  /** `Omit<PresetConfig, "id" | "isCustom" | "createdAt">`: what the form
      hands over. */
  datatype ConfigFields = ConfigFields(
    displayName: string,
    source: Source,
    key: Option<string>,
    value: Option<string>,
    icon: Option<string>,
    description: Option<string>)

  /** The id `addCustomConfig` gives at the millisecond `now`. */
  function CustomId(now: nat): string {
    "custom-" + DecimalText(now)
  }

  /** `{...config, id, isCustom: true, createdAt}` (lines 13-18): the fields
      written after the spread always win. */
  function NewCustomConfig(fields: ConfigFields, now: nat, createdAt: string): (r: Config)
    ensures r.id == CustomId(now) && r.isCustom == Some(true) && r.createdAt == Some(createdAt)
    ensures ConfigFields(r.displayName, r.source, r.key, r.value, r.icon, r.description) == fields
  {
    Config(CustomId(now), fields.displayName, fields.source, fields.key, fields.value, fields.icon,
      fields.description, Some(true), Some(createdAt))
  }

  /** Configurations added at different milliseconds have different ids. */
  lemma CustomIdsDistinct(m: nat, n: nat)
    requires m != n
    ensures CustomId(m) != CustomId(n)
  {
    if CustomId(m) == CustomId(n) {
      assert DecimalText(m) == CustomId(m)[7..];
      assert DecimalText(n) == CustomId(n)[7..];
      DecimalInjective(m, n);
    }
  }

  /** `Partial<PresetConfig>`: each property may be missing (`None`); an
      optional property that is present may itself be `undefined`. */
  datatype ConfigPatch = ConfigPatch(
    id: Option<string>,
    displayName: Option<string>,
    source: Option<Source>,
    key: Option<Option<string>>,
    value: Option<Option<string>>,
    icon: Option<Option<string>>,
    description: Option<Option<string>>,
    isCustom: Option<Option<bool>>,
    createdAt: Option<Option<string>>)

  const EmptyPatch: ConfigPatch := ConfigPatch(None, None, None, None, None, None, None, None, None)

  /** `{...config, ...updates}`: each property the patch holds replaces the
      configuration's, each it lacks keeps the configuration's. */
  function Overlay(c: Config, p: ConfigPatch): (r: Config)
    ensures p == EmptyPatch ==> r == c
    ensures p.id.Some? ==> r.id == p.id.value
    ensures p.id.None? ==> r.id == c.id
    ensures p.displayName.Some? ==> r.displayName == p.displayName.value
    ensures p.displayName.None? ==> r.displayName == c.displayName
    ensures p.source.Some? ==> r.source == p.source.value
    ensures p.source.None? ==> r.source == c.source
    ensures p.key.Some? ==> r.key == p.key.value
    ensures p.key.None? ==> r.key == c.key
    ensures p.value.Some? ==> r.value == p.value.value
    ensures p.value.None? ==> r.value == c.value
    ensures p.icon.Some? ==> r.icon == p.icon.value
    ensures p.icon.None? ==> r.icon == c.icon
    ensures p.description.Some? ==> r.description == p.description.value
    ensures p.description.None? ==> r.description == c.description
    ensures p.isCustom.Some? ==> r.isCustom == p.isCustom.value
    ensures p.isCustom.None? ==> r.isCustom == c.isCustom
    ensures p.createdAt.Some? ==> r.createdAt == p.createdAt.value
    ensures p.createdAt.None? ==> r.createdAt == c.createdAt
  {
    Config(
      p.id.GetOr(c.id),
      p.displayName.GetOr(c.displayName),
      p.source.GetOr(c.source),
      p.key.GetOr(c.key),
      p.value.GetOr(c.value),
      p.icon.GetOr(c.icon),
      p.description.GetOr(c.description),
      p.isCustom.GetOr(c.isCustom),
      p.createdAt.GetOr(c.createdAt))
  }

  /** `prev.map(config => config.id === id ? {...config, ...updates} :
      config)` (lines 24-28). */
  function Updated(list: seq<Config>, id: string, patch: ConfigPatch): (r: seq<Config>)
    ensures |r| == |list|
    ensures forall i :: 0 <= i < |list| && list[i].id != id ==> r[i] == list[i]
    ensures forall i :: 0 <= i < |list| && list[i].id == id ==> r[i] == Overlay(list[i], patch)
  {
    seq(|list|, i requires 0 <= i < |list| => if list[i].id == id then Overlay(list[i], patch) else list[i])
  }

  /** `prev.filter(config => config.id !== id)` (line 32). */
  function Deleted(list: seq<Config>, id: string): seq<Config> {
    Filter(list, (c: Config) => c.id != id)
  }

  /** An update for an id that is not in the list changes nothing; an update
      that does not touch `id` keeps every id in place. */
  lemma UpdateKeepsIds(list: seq<Config>, id: string, patch: ConfigPatch)
    ensures (forall c :: c in list ==> c.id != id) ==> Updated(list, id, patch) == list
    ensures patch.id.None? ==> forall i :: 0 <= i < |list| ==> Updated(list, id, patch)[i].id == list[i].id
  {
    if forall c :: c in list ==> c.id != id {
      forall i | 0 <= i < |list| ensures Updated(list, id, patch)[i] == list[i] {
        assert list[i] in list;
      }
    }
  }

  /** Sending the same update twice is sending it once, as long as the
      update does not move the configuration to another id. */
  lemma UpdateIdempotent(list: seq<Config>, id: string, patch: ConfigPatch)
    requires patch.id.None? || patch.id == Some(id)
    ensures Updated(Updated(list, id, patch), id, patch) == Updated(list, id, patch)
  {
  }

  /** Deleting the configuration just added gives the list back, as long as
      its id was new. */
  lemma DeleteUndoesAdd(list: seq<Config>, c: Config)
    requires forall x :: x in list ==> x.id != c.id
    ensures Deleted(list + [c], c.id) == list
  {
    var keep := (x: Config) => x.id != c.id;
    FilterConcat(list, [c], keep);
    FilterKeepsAll(list, keep);
    assert Filter([c], keep) == [];
  }

  /** Deleting drops every configuration with the id and keeps the others
      in their order. */
  lemma DeleteRemovesExactly(list: seq<Config>, id: string, other: seq<Config>)
    ensures forall c :: c in Deleted(list, id) <==> c in list && c.id != id
    ensures Deleted(list + other, id) == Deleted(list, id) + Deleted(other, id)
  {
    FilterConcat(list, other, (c: Config) => c.id != id);
  }

  /** `useCustomConfigs()`: the persisted list. */
  class CustomConfigStore {
    const cell: LocalStorageCell<seq<Config>>

    predicate Valid() {
      cell.key == CustomConfigsKey
    }

    /** The first render: an empty list under "autologin-custom-configs". */
    constructor(store: Storage, codec: Codec<seq<Config>>)
      ensures Valid() && fresh(cell)
      ensures cell.store == store && cell.codec == codec
      ensures cell.storedValue == [] && !cell.isClient
    {
      cell := new LocalStorageCell(CustomConfigsKey, [], store, codec);
    }

    /** `addCustomConfig(config)` (lines 10-21): the new configuration is
        appended and returned. */
    method AddCustomConfig(fields: ConfigFields, now: nat, createdAt: string) returns (added: Config)
      requires Valid()
      modifies cell, cell.store
      ensures added == NewCustomConfig(fields, now, createdAt)
      ensures cell.storedValue == old(cell.storedValue) + [added]
      ensures cell.isClient == old(cell.isClient) && cell.Saved(cell.storedValue)
    {
      added := NewCustomConfig(fields, now, createdAt);
      var c := added;
      cell.Update(prev => Some(prev + [c]));
    }

    /** `updateCustomConfig(id, updates)` (lines 23-29). */
    method UpdateCustomConfig(id: string, patch: ConfigPatch)
      requires Valid()
      modifies cell, cell.store
      ensures cell.storedValue == Updated(old(cell.storedValue), id, patch)
      ensures cell.isClient == old(cell.isClient) && cell.Saved(cell.storedValue)
    {
      cell.Update(prev => Some(Updated(prev, id, patch)));
    }

    /** `deleteCustomConfig(id)` (lines 31-33). */
    method DeleteCustomConfig(id: string)
      requires Valid()
      modifies cell, cell.store
      ensures cell.storedValue == Deleted(old(cell.storedValue), id)
      ensures cell.isClient == old(cell.isClient) && cell.Saved(cell.storedValue)
    {
      cell.Update(prev => Some(Deleted(prev, id)));
    }
  }
}
