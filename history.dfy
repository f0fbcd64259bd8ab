/** src/hooks/useHistory.ts: the log of generation attempts, newest first,
    at most 50 records, persisted under "autologin-history". The clock
    (`Date.now()` and the ISO time) is a parameter. */
module History {
  import opened Wrappers
  import opened Text
  import opened Types
  import opened Seqs
  import opened Persistence

  const HistoryKey: string := "autologin-history"
  const Capacity: nat := 50

  /** The record `addToHistory` builds (lines 12-28) at the millisecond
      `now`. */
  function NewRecord(config: Config, code: string, success: bool, errorMessage: Option<string>,
                     now: nat, timestamp: string): HistoryRecord
  {
    HistoryRecord(DecimalText(now), config, config.id, code, timestamp, Some(success), errorMessage,
      Some(config.displayName), config.icon)
  }

  /** `[record, ...prev.slice(0, 49)]` (line 30): the record in front of the
      first 49 earlier ones, in their order. */
  function Prepend(record: HistoryRecord, list: seq<HistoryRecord>): (r: seq<HistoryRecord>)
    ensures |r| == Min(|list|, Capacity - 1) + 1
    ensures r[0] == record && r[1..] == list[..|r| - 1]
  {
    [record] + list[..Min(|list|, Capacity - 1)]
  }

  /** `prev.filter(record => record.id !== id)` (line 41). */
  function Without(list: seq<HistoryRecord>, id: string): seq<HistoryRecord> {
    Filter(list, (r: HistoryRecord) => r.id != id)
  }

  /** The list after `records` are added one after the other. */
  function AddAll(list: seq<HistoryRecord>, records: seq<HistoryRecord>): seq<HistoryRecord>
    decreases |records|
  {
    if records == [] then list
    else Prepend(records[|records| - 1], AddAll(list, records[..|records| - 1]))
  }

  /** However many records are added, the log holds the newest ones, newest
      first, down to 50: the oldest are evicted. */
  lemma {:induction false} AddAllKeepsNewest(list: seq<HistoryRecord>, records: seq<HistoryRecord>)
    requires |list| <= Capacity
    ensures AddAll(list, records) == (Reverse(records) + list)[..Min(|records| + |list|, Capacity)]
    decreases |records|
  {
    var all := Reverse(records) + list;
    if records == [] {
      assert all == list;
    } else {
      var n := |records|;
      var x := records[n - 1];
      var before := records[..n - 1];
      AddAllKeepsNewest(list, before);
      var rest := Reverse(before) + list;
      assert Reverse(records) == [x] + Reverse(before);
      assert all == [x] + rest;
      var m := Min(n - 1 + |list|, Capacity);
      var p := rest[..m];
      assert AddAll(list, records) == [x] + p[..Min(|p|, Capacity - 1)];
      assert p[..Min(|p|, Capacity - 1)] == rest[..Min(n - 1 + |list|, Capacity - 1)];
    }
  }

  /** Removal drops every record with the id, keeps every other record, and
      keeps their order. */
  lemma WithoutRemovesExactly(list: seq<HistoryRecord>, id: string, other: seq<HistoryRecord>)
    ensures forall r :: r in Without(list, id) <==> r in list && r.id != id
    ensures Without(list + other, id) == Without(list, id) + Without(other, id)
    ensures (forall r :: r in list ==> r.id != id) ==> Without(list, id) == list
  {
    FilterConcat(list, other, (r: HistoryRecord) => r.id != id);
    if forall r :: r in list ==> r.id != id {
      FilterKeepsAll(list, (r: HistoryRecord) => r.id != id);
    }
  }

  /** Two records made in the same millisecond share their id, so removing
      one removes both. */
  lemma SameMillisecondRemovedTogether(a: HistoryRecord, b: HistoryRecord, list: seq<HistoryRecord>)
    requires a.id == b.id && a in list && b in list
    ensures a !in Without(list, a.id) && b !in Without(list, a.id)
  {
  }

  /** Records made at different milliseconds have different ids. */
  lemma DistinctTimesDistinctIds(c1: Config, c2: Config, code1: string, code2: string, s1: bool, s2: bool,
                                 e1: Option<string>, e2: Option<string>, t1: nat, t2: nat, ts1: string, ts2: string)
    requires t1 != t2
    ensures NewRecord(c1, code1, s1, e1, t1, ts1).id != NewRecord(c2, code2, s2, e2, t2, ts2).id
  {
    if DecimalText(t1) == DecimalText(t2) {
      DecimalInjective(t1, t2);
    }
  }

  /** `useHistory()`: the persisted list of records. */
  class HistoryStore {
    const cell: LocalStorageCell<seq<HistoryRecord>>

    predicate Valid() {
      cell.key == HistoryKey
    }

    /** The first render: an empty list under "autologin-history". */
    constructor(store: Storage, codec: Codec<seq<HistoryRecord>>)
      ensures Valid() && fresh(cell)
      ensures cell.store == store && cell.codec == codec
      ensures cell.storedValue == [] && !cell.isClient
    {
      cell := new LocalStorageCell(HistoryKey, [], store, codec);
    }

    /** `addToHistory(config, code, success, errorMessage)` (lines 11-33);
        `success` is `true` where the caller leaves it out. */
    method AddToHistory(config: Config, code: string, success: bool, errorMessage: Option<string>,
                        now: nat, timestamp: string)
      requires Valid()
      modifies cell, cell.store
      ensures cell.storedValue == Prepend(NewRecord(config, code, success, errorMessage, now, timestamp), old(cell.storedValue))
      ensures cell.isClient == old(cell.isClient) && cell.Saved(cell.storedValue)
    {
      var record := NewRecord(config, code, success, errorMessage, now, timestamp);
      cell.Update(prev => Some(Prepend(record, prev)));
    }

    /** `clearHistory()` (lines 35-37). */
    method ClearHistory()
      requires Valid()
      modifies cell, cell.store
      ensures cell.storedValue == [] && cell.isClient == old(cell.isClient) && cell.Saved([])
    {
      cell.SetValue([]);
    }

    /** `removeFromHistory(id)` (lines 39-43). */
    method RemoveFromHistory(id: string)
      requires Valid()
      modifies cell, cell.store
      ensures cell.storedValue == Without(old(cell.storedValue), id)
      ensures cell.isClient == old(cell.isClient) && cell.Saved(cell.storedValue)
    {
      cell.Update(prev => Some(Without(prev, id)));
    }
  }
}
