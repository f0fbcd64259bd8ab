/** src/hooks/useConfigOrder.ts: the order the user dragged the
    configurations into, kept as a map from id to position and persisted
    under "autologin-config-order"; lists are shown sorted by it. */
module ConfigOrder {
  import opened Types
  import opened Seqs
  import opened Persistence

  const ConfigOrderKey: string := "autologin-config-order"

  /** The rank of an id the map does not hold (line 25). */
  const Unranked: int := 999

  /** `newOrder` after the `forEach` over `configs` (lines 13-16): each id
      maps to the index it was last seen at. */
  function Ranks(configs: seq<Config>): (r: map<string, int>)
    ensures r.Keys == set c | c in configs :: c.id
    decreases |configs|
  {
    if configs == [] then map[]
    else
      var n := |configs| - 1;
      var r := Ranks(configs[..n]);
      assert forall c :: c in configs <==> c in configs[..n] || c == configs[n];
      r[configs[n].id := n]
  }

  /** The rank of each id is the last position holding it. */
  lemma {:induction false} RanksAreLastPositions(configs: seq<Config>, id: string)
    requires id in Ranks(configs)
    ensures 0 <= Ranks(configs)[id] < |configs| && configs[Ranks(configs)[id]].id == id
    ensures forall j :: Ranks(configs)[id] < j < |configs| ==> configs[j].id != id
    decreases |configs|
  {
    var n := |configs| - 1;
    var prev := configs[..n];
    assert Ranks(configs) == Ranks(prev)[configs[n].id := n];
    if configs[n].id != id {
      assert id in Ranks(prev);
      RanksAreLastPositions(prev, id);
      var r := Ranks(prev)[id];
      assert configs[r] == prev[r];
      forall j | r < j < |configs| ensures configs[j].id != id {
        if j < n {
          assert r < j < |prev| && configs[j] == prev[j];
          assert prev[j].id != id;
        } else {
          assert j == n;
        }
      }
    }
  }

  /** With distinct ids, each configuration's rank is its position. */
  lemma RankIsPosition(configs: seq<Config>, i: int)
    requires forall a, b :: 0 <= a < b < |configs| ==> configs[a].id != configs[b].id
    requires 0 <= i < |configs|
    ensures configs[i].id in Ranks(configs) && Ranks(configs)[configs[i].id] == i
  {
    assert configs[i] in configs;
    RanksAreLastPositions(configs, configs[i].id);
  }

  /** `updateConfigOrder(configs)`'s loop (lines 13-16). */
  method OrderOf(configs: seq<Config>) returns (order: map<string, int>)
    ensures order == Ranks(configs)
  {
    order := map[];
    var i := 0;
    while i < |configs|
      invariant 0 <= i <= |configs|
      invariant order == Ranks(configs[..i])
    {
      assert configs[..i + 1][..i] == configs[..i];
      order := order[configs[i].id := i];
      i := i + 1;
    }
    assert configs[..|configs|] == configs;
  }

  /** `configOrder[c.id] ?? 999`. */
  function Rank(order: map<string, int>, c: Config): int {
    if c.id in order then order[c.id] else Unranked
  }

  predicate Ordered(order: map<string, int>, s: seq<Config>) {
    forall i, j :: 0 <= i < j < |s| ==> Rank(order, s[i]) <= Rank(order, s[j])
  }

  /** `c` placed after every element of `sorted` that does not rank above
      it. */
  function Insert(order: map<string, int>, c: Config, sorted: seq<Config>): (r: seq<Config>)
    requires Ordered(order, sorted)
    ensures Ordered(order, r)
    ensures multiset(r) == multiset(sorted) + multiset{c}
    decreases |sorted|
  {
    if sorted == [] then [c]
    else
      var n := |sorted| - 1;
      var last := sorted[n];
      if Rank(order, last) <= Rank(order, c) then
        assert forall i :: 0 <= i < |sorted| ==> Rank(order, sorted[i]) <= Rank(order, c) by {
          forall i | 0 <= i < |sorted| ensures Rank(order, sorted[i]) <= Rank(order, c) {
            if i < n {
              assert Rank(order, sorted[i]) <= Rank(order, last);
            }
          }
        }
        AppendOrdered(order, sorted, c);
        sorted + [c]
      else
        OrderedPrefix(order, sorted, n);
        var front := Insert(order, c, sorted[..n]);
        assert sorted == sorted[..n] + [last];
        BelowLast(order, c, sorted, front);
        AppendOrdered(order, front, last);
        front + [last]
  }

  /** Appending an element ranked at least as high as every other keeps the
      order. */
  lemma AppendOrdered(order: map<string, int>, s: seq<Config>, x: Config)
    requires Ordered(order, s)
    requires forall i :: 0 <= i < |s| ==> Rank(order, s[i]) <= Rank(order, x)
    ensures Ordered(order, s + [x])
  {
  }

  /** What `Insert` puts in front of the last element ranks no higher than
      it. */
  lemma BelowLast(order: map<string, int>, c: Config, sorted: seq<Config>, front: seq<Config>)
    requires Ordered(order, sorted) && sorted != []
    requires Rank(order, c) < Rank(order, sorted[|sorted| - 1])
    requires multiset(front) == multiset(sorted[..|sorted| - 1]) + multiset{c}
    ensures forall i :: 0 <= i < |front| ==> Rank(order, front[i]) <= Rank(order, sorted[|sorted| - 1])
  {
    var n := |sorted| - 1;
    forall i | 0 <= i < |front| ensures Rank(order, front[i]) <= Rank(order, sorted[n]) {
      var x := front[i];
      assert x in multiset(front);
      if x != c {
        assert x in multiset(sorted[..n]);
        var j :| 0 <= j < n && sorted[..n][j] == x;
        assert sorted[j] == x;
      }
    }
  }

  /** `[...configs].sort((a, b) => rank(a) - rank(b))` (lines 22-31): the
      stable sort by rank, here by insertion. */
  function SortByRank(order: map<string, int>, configs: seq<Config>): (r: seq<Config>)
    ensures Ordered(order, r)
    ensures multiset(r) == multiset(configs)
    decreases |configs|
  {
    if configs == [] then []
    else
      var n := |configs| - 1;
      assert configs == configs[..n] + [configs[n]];
      Insert(order, configs[n], SortByRank(order, configs[..n]))
  }

  /** The elements of rank `k`. */
  function OfRank(order: map<string, int>, k: int, s: seq<Config>): seq<Config> {
    Filter(s, (c: Config) => Rank(order, c) == k)
  }

  lemma {:induction false} InsertStable(order: map<string, int>, c: Config, sorted: seq<Config>, k: int)
    requires Ordered(order, sorted)
    ensures OfRank(order, k, Insert(order, c, sorted)) == OfRank(order, k, sorted) + OfRank(order, k, [c])
    decreases |sorted|
  {
    var keep := (x: Config) => Rank(order, x) == k;
    if sorted != [] {
      var n := |sorted| - 1;
      var last := sorted[n];
      if Rank(order, last) <= Rank(order, c) {
        FilterConcat(sorted, [c], keep);
      } else {
        InsertBeforeLastStable(order, c, sorted, k);
      }
    }
  }

  lemma {:induction false} InsertBeforeLastStable(order: map<string, int>, c: Config, sorted: seq<Config>, k: int)
    requires Ordered(order, sorted) && sorted != []
    requires Rank(order, sorted[|sorted| - 1]) > Rank(order, c)
    ensures OfRank(order, k, Insert(order, c, sorted)) == OfRank(order, k, sorted) + OfRank(order, k, [c])
    decreases |sorted|, 0
  {
    var keep := (x: Config) => Rank(order, x) == k;
    var n := |sorted| - 1;
    var last := sorted[n];
    var init := sorted[..n];
    var front := Insert(order, c, init);
    assert Insert(order, c, sorted) == front + [last];
    InsertStable(order, c, init, k);
    FilterConcat(front, [last], keep);
    assert sorted == init + [last];
    FilterConcat(init, [last], keep);
    OfRankSingle(order, k, c);
    OfRankSingle(order, k, last);
    Interleave(OfRank(order, k, front), OfRank(order, k, [last]), OfRank(order, k, init), OfRank(order, k, [c]));
  }

  lemma OfRankSingle(order: map<string, int>, k: int, x: Config)
    ensures OfRank(order, k, [x]) == if Rank(order, x) == k then [x] else []
  {
  }

  /** When one of two single-element parts is empty, their order does not
      matter. */
  lemma Interleave(f: seq<Config>, l: seq<Config>, i: seq<Config>, one: seq<Config>)
    requires f == i + one && (l == [] || one == [])
    ensures f + l == i + l + one
  {
  }

  /** Configurations of equal rank keep the order they came in. */
  lemma {:induction false} SortStable(order: map<string, int>, configs: seq<Config>, k: int)
    ensures OfRank(order, k, SortByRank(order, configs)) == OfRank(order, k, configs)
    decreases |configs|
  {
    if configs != [] {
      var n := |configs| - 1;
      SortStable(order, configs[..n], k);
      InsertStable(order, configs[n], SortByRank(order, configs[..n]), k);
      assert configs == configs[..n] + [configs[n]];
      FilterConcat(configs[..n], [configs[n]], (c: Config) => Rank(order, c) == k);
    }
  }

  /** No two elements of `s` share a rank. */
  predicate RanksDistinct(order: map<string, int>, s: seq<Config>) {
    forall x, y :: x in s && y in s && Rank(order, x) == Rank(order, y) ==> x == y
  }

  /** Two ordered lists with the same elements are equal when no two of
      their elements share a rank. */
  lemma {:induction false} OrderedUnique(order: map<string, int>, a: seq<Config>, b: seq<Config>)
    requires Ordered(order, a) && Ordered(order, b)
    requires multiset(a) == multiset(b)
    requires RanksDistinct(order, a)
    ensures a == b
    decreases |a|
  {
    if a != [] {
      var n := |a| - 1;
      SameLast(order, a, b);
      DropLast(order, a, b);
      OrderedUnique(order, a[..n], b[..n]);
      assert a == a[..n] + [a[n]];
      assert b == b[..n] + [b[n]];
    }
  }

  lemma DropLast(order: map<string, int>, a: seq<Config>, b: seq<Config>)
    requires Ordered(order, a) && Ordered(order, b) && RanksDistinct(order, a)
    requires multiset(a) == multiset(b)
    requires a != [] && |b| == |a| && b[|b| - 1] == a[|a| - 1]
    ensures Ordered(order, a[..|a| - 1]) && Ordered(order, b[..|b| - 1])
    ensures multiset(a[..|a| - 1]) == multiset(b[..|b| - 1])
    ensures RanksDistinct(order, a[..|a| - 1])
  {
    var n := |a| - 1;
    OrderedPrefix(order, a, n);
    OrderedPrefix(order, b, n);
    DistinctPrefix(order, a, n);
    SameElementsBeforeLast(a, b);
  }

  lemma SameElementsBeforeLast(a: seq<Config>, b: seq<Config>)
    requires multiset(a) == multiset(b)
    requires a != [] && |b| == |a| && b[|b| - 1] == a[|a| - 1]
    ensures multiset(a[..|a| - 1]) == multiset(b[..|b| - 1])
  {
    var n := |a| - 1;
    var x := a[n];
    assert a == a[..n] + [x];
    assert b == b[..n] + [x];
    assert multiset(a[..n]) == multiset(a) - multiset{x};
    assert multiset(b[..n]) == multiset(b) - multiset{x};
  }

  lemma OrderedPrefix(order: map<string, int>, s: seq<Config>, n: nat)
    requires Ordered(order, s) && n <= |s|
    ensures Ordered(order, s[..n])
  {
  }

  lemma DistinctPrefix(order: map<string, int>, s: seq<Config>, n: nat)
    requires RanksDistinct(order, s) && n <= |s|
    ensures RanksDistinct(order, s[..n])
  {
    assert forall z :: z in s[..n] ==> z in s;
  }

  /** Both lists end with the element of highest rank. */
  lemma SameLast(order: map<string, int>, a: seq<Config>, b: seq<Config>)
    requires Ordered(order, a) && Ordered(order, b) && a != []
    requires multiset(a) == multiset(b)
    requires RanksDistinct(order, a)
    ensures |b| == |a| && b[|b| - 1] == a[|a| - 1]
  {
    assert |a| == |multiset(a)| == |multiset(b)| == |b|;
    var n := |a| - 1;
    var x, y := a[n], b[n];
    assert x in multiset(b) && y in multiset(a);
    var i :| 0 <= i < |b| && b[i] == x;
    var j :| 0 <= j < |a| && a[j] == y;
    assert Rank(order, x) <= Rank(order, y) by {
      if i < n {
      }
    }
    assert Rank(order, y) <= Rank(order, x) by {
      if j < n {
      }
    }
  }

  /** After `updateConfigOrder(list)` with distinct ids, sorting any
      rearrangement of `list` gives `list` back. */
  lemma SortRestoresOrder(list: seq<Config>, shuffled: seq<Config>)
    requires forall a, b :: 0 <= a < b < |list| ==> list[a].id != list[b].id
    requires multiset(shuffled) == multiset(list)
    ensures SortByRank(Ranks(list), shuffled) == list
  {
    var order := Ranks(list);
    forall i | 0 <= i < |list| ensures Rank(order, list[i]) == i {
      RankIsPosition(list, i);
    }
    assert Ordered(order, list);
    assert RanksDistinct(order, list) by {
      forall x, y | x in list && y in list && Rank(order, x) == Rank(order, y) ensures x == y {
      var i :| 0 <= i < |list| && list[i] == x;
        var j :| 0 <= j < |list| && list[j] == y;
      }
    }
    OrderedUnique(order, list, SortByRank(order, shuffled));
  }

  /** `useConfigOrder()`: the persisted map. */
  class ConfigOrderStore {
    const cell: LocalStorageCell<map<string, int>>

    predicate Valid() {
      cell.key == ConfigOrderKey
    }

    /** The first render: an empty map under "autologin-config-order". */
    constructor(store: Storage, codec: Codec<map<string, int>>)
      ensures Valid() && fresh(cell)
      ensures cell.store == store && cell.codec == codec
      ensures cell.storedValue == map[] && !cell.isClient
    {
      cell := new LocalStorageCell(ConfigOrderKey, map[], store, codec);
    }

    /** `updateConfigOrder(configs)` (lines 11-20). */
    method UpdateConfigOrder(configs: seq<Config>)
      requires Valid()
      modifies cell, cell.store
      ensures cell.storedValue == Ranks(configs)
      ensures cell.isClient == old(cell.isClient) && cell.Saved(cell.storedValue)
    {
      var order := OrderOf(configs);
      cell.SetValue(order);
    }

    /** `getSortedConfigs(configs)` (lines 22-31): nothing changes. */
    method GetSortedConfigs(configs: seq<Config>) returns (sorted: seq<Config>)
      requires Valid()
      ensures sorted == SortByRank(cell.storedValue, configs)
    {
      sorted := SortByRank(cell.storedValue, configs);
    }
  }
}
