/** The cache of historical data items: per key a table of values by item id, kept in the LRU cache. */
module HdiCache {
  import opened Options
  import opened LinkedList
  import opened Cache

  /** The value of one item. */
  class HdiValue {
    const hid: int

    constructor (hid: int)
      ensures this.hid == hid
    {
      this.hid := hid;
    }
  }

  /** The values of one key, by item id. */
  class HidTable {
    var values: map<int, HdiValue>

    constructor ()
      ensures values == map[]
    {
      values := map[];
    }
  }

  /** Every value is filed under its own item id. */
  ghost predicate TableOk(table: HidTable)
    reads table
  {
    forall h :: h in table.values ==> table.values[h].hid == h
  }

  ghost predicate TablesOk(cache: Cache<string, HidTable>)
    reads cache.list, set e | e in cache.list.contents :: e.value
  {
    forall i :: 0 <= i < |cache.list.contents| ==> TableOk(cache.list.contents[i].value)
  }

  /** kr_hdi_cache_get: the value of an item, from the cache as long as the key stays in it.
      Only after a miss is the key set. */
  method HdiGet(cache: Cache<string, HidTable>, key: string, hid: int, now: int) returns (val: HdiValue)
    requires cache.Valid() && TablesOk(cache)
    modifies cache`table, cache.list, cache.list.nodes
    modifies if key in cache.table then {cache.table[key].owner, cache.table[key].owner.value} else {}
    ensures cache.Valid() && TablesOk(cache) && cache.maxSize == old(cache.maxSize) && val.hid == hid
    ensures cache.Recency() == Touch(cache.maxSize, old(cache.Recency()), key)
    ensures key in cache.table && hid in cache.table[key].owner.value.values
      && cache.table[key].owner.value.values[hid] == val
    ensures key in old(cache.table) ==> cache.table == old(cache.table)
    ensures key in old(cache.table) && hid in old(cache.table[key].owner.value.values) ==>
      cache.table[key].owner.value.values == old(cache.table[key].owner.value.values)
    ensures key in old(cache.table) && hid !in old(cache.table[key].owner.value.values) ==>
      fresh(val) && cache.table[key].owner.value.values == old(cache.table[key].owner.value.values)[hid := val]
    ensures key !in old(cache.table) ==> fresh(val) && cache.table[key].owner.value.values == map[hid := val]
    ensures forall i :: 0 <= i < |cache.list.nodes| ==>
      cache.list.nodes[i] in old(cache.list.nodes) || fresh(cache.list.nodes[i])
    ensures forall i :: 0 <= i < |cache.list.contents| ==>
      cache.list.contents[i] in old(cache.list.contents)
        || (fresh(cache.list.contents[i]) && fresh(cache.list.contents[i].value))
  {
    var table := TableOf(cache, key, now);
    TableIsOk(cache, key);
    hide Cache.Valid, Cache.Recency, TableOk, Touch;
    val := FindOrAdd(table, hid);
  }

  lemma EmptyTableOk(table: HidTable)
    requires table.values == map[]
    ensures TableOk(table)
  {}

  lemma TableIsOk(cache: Cache<string, HidTable>, key: string)
    requires cache.Valid() && TablesOk(cache) && key in cache.table
    ensures TableOk(cache.table[key].owner.value)
  {}

  /** The table of a key: the cached one, or after a miss an empty one that is now cached. */
  method TableOf(cache: Cache<string, HidTable>, key: string, now: int) returns (table: HidTable)
    requires cache.Valid() && TablesOk(cache)
    modifies cache`table, cache.list, cache.list.nodes, if key in cache.table then {cache.table[key].owner} else {}
    ensures cache.Valid() && TablesOk(cache) && cache.maxSize == old(cache.maxSize)
    ensures cache.Recency() == Touch(cache.maxSize, old(cache.Recency()), key)
    ensures key in cache.table && cache.table[key].owner.value == table
    ensures key in old(cache.table) ==> cache.table == old(cache.table)
    ensures key !in old(cache.table) ==> fresh(table) && table.values == map[]
    ensures forall i :: 0 <= i < |cache.list.nodes| ==>
      cache.list.nodes[i] in old(cache.list.nodes) || fresh(cache.list.nodes[i])
    ensures forall i :: 0 <= i < |cache.list.contents| ==>
      cache.list.contents[i] in old(cache.list.contents)
        || (fresh(cache.list.contents[i]) && fresh(cache.list.contents[i].value))
  {
    hide Touch, Cache.Valid, Cache.Recency, TableOk;
    var node := cache.Get(key, now);
    if node != None {
      table := node.value;
    } else {
      table := new HidTable();
      EmptyTableOk(table);
      TakeElements(cache.maxSize - 1, cache.list.nodes);
      TakeElements(cache.maxSize - 1, cache.list.contents);
      var entry := cache.Set(key, table);
    }
  }

  /** The value of the item in the table of its key, made if it is missing. */
  method FindOrAdd(table: HidTable, hid: int) returns (val: HdiValue)
    requires TableOk(table)
    modifies table
    ensures TableOk(table) && hid in table.values && table.values[hid] == val && val.hid == hid
    ensures if hid in old(table.values) then table.values == old(table.values)
      else fresh(val) && table.values == old(table.values)[hid := val]
  {
    if hid in table.values {
      val := table.values[hid];
    } else {
      val := new HdiValue(hid);
      table.values := table.values[hid := val];
    }
  }

  function KeysOf(requests: seq<(string, int)>): (r: seq<string>)
    ensures |r| == |requests|
  {
    seq(|requests|, i requires 0 <= i < |requests| => requests[i].0)
  }

  /** After any requests a cache of limit n holds exactly the n keys requested most recently. */
  method HdiGetAll(n: nat, requests: seq<(string, int)>) returns (cache: Cache<string, HidTable>)
    requires n > 0
    ensures fresh(cache) && cache.Valid() && cache.maxSize == n
    ensures cache.Recency() == Take(n, Recent(KeysOf(requests)))
  {
    cache := new Cache(n);
    assert KeysOf(requests[..0]) == [];
    assert requests[..|requests|] == requests;
    for i := 0 to |requests|
      invariant cache.Valid() && cache.maxSize == n
      invariant cache.Recency() == Take(n, Recent(KeysOf(requests[..i])))
      invariant fresh(cache.list) && forall j :: 0 <= j < |cache.list.nodes| ==> fresh(cache.list.nodes[j])
      invariant forall j :: 0 <= j < |cache.list.contents| ==>
        fresh(cache.list.contents[j]) && fresh(cache.list.contents[j].value)
      invariant TablesOk(cache)
    {
      OwnersAreEntries(cache);
      KeysOfMore(requests, i);
      hide *;
      TouchRecent(n, KeysOf(requests[..i]), requests[i].0);
      var val := HdiGet(cache, requests[i].0, requests[i].1, i);
    }
  }

  lemma KeysOfMore(requests: seq<(string, int)>, i: nat)
    requires i < |requests|
    ensures KeysOf(requests[..i + 1]) == KeysOf(requests[..i]) + [requests[i].0]
  {}

  lemma OwnersAreEntries(cache: Cache<string, HidTable>)
    requires cache.Valid()
    ensures forall k :: k in cache.table ==> cache.table[k].owner in cache.list.contents
  {}
}
