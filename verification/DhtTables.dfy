/** The nine containers of DHT_operation as one value, and what each operation does
    to them, including the defaults that unordered_map::operator[] inserts. */
module DhtTables {
  import opened Wrappers
  import opened ExpiryIndex

  /** std::set<shard> compares by shard_id only; an entry's shards are kept in
      iteration order. `packages` is carried but never stored. */
  datatype Shard = Shard(shardId: string, packages: seq<string>)

  datatype DhtEntry = DhtEntry(
    nodeId: string,
    nodeIp: string,
    nodeShard: seq<Shard>,
    generation: int,
    expiry: int,
    information: string)

  datatype Tables = Tables(
    ipToId: map<string, string>,
    idToIp: map<string, string>,
    idToGeneration: map<string, int>,
    expiryIndex: PairSet,
    idToExpiry: map<string, int>,
    shardToIds: map<string, set<string>>,
    idToShards: map<string, set<string>>,
    idToInformation: map<string, string>,
    idToLiveness: map<string, int>)

  const EMPTY_TABLES: Tables := Tables(map[], map[], map[], [], map[], map[], map[], map[], map[])

  function ShardIds(shards: seq<Shard>): set<string> {
    set shard | shard in shards :: shard.shardId
  }

  lemma ShardIdsIff(shards: seq<Shard>, s: string)
    ensures s in ShardIds(shards) <==> exists i :: 0 <= i < |shards| && shards[i].shardId == s
  {
    if i :| 0 <= i < |shards| && shards[i].shardId == s {
      assert shards[i] in shards;
    }
  }

  /** unordered_map<string, set<string>>::operator[], read as a value. */
  function Members(m: map<string, set<string>>, key: string): set<string> {
    if key in m then m[key] else {}
  }

  function AddToBuckets(buckets: map<string, set<string>>, shardIds: set<string>, nodeId: string)
    : map<string, set<string>>
  {
    map s | s in buckets.Keys + shardIds ::
      if s in shardIds then Members(buckets, s) + {nodeId} else buckets[s]
  }

  /** The row of `nodeId` appears with its first shard. */
  function AddHoldings(holdings: map<string, set<string>>, nodeId: string, shardIds: set<string>)
    : map<string, set<string>>
  {
    if shardIds == {} then holdings else holdings[nodeId := Members(holdings, nodeId) + shardIds]
  }

  /** Line 54 reaches the bucket through operator[], so a missing bucket appears empty. */
  function RemoveFromBuckets(buckets: map<string, set<string>>, shardIds: set<string>, nodeId: string)
    : map<string, set<string>>
  {
    map s | s in buckets.Keys + shardIds ::
      if s in shardIds then Members(buckets, s) - {nodeId} else buckets[s]
  }

  /** Lines 46-48: a missing ip is first bound to "". */
  function ReleaseIp(ipToId: map<string, string>, ip: string, nodeId: string): map<string, string> {
    var touched := if ip in ipToId then ipToId else ipToId[ip := ""];
    if touched[ip] == nodeId then touched - {ip} else touched
  }

  /** Lines 20-30. */
  function InsertTables(t: Tables, e: DhtEntry): Tables {
    var ids := ShardIds(e.nodeShard);
    Tables(
      t.ipToId[e.nodeIp := e.nodeId],
      t.idToIp[e.nodeId := e.nodeIp],
      t.idToGeneration[e.nodeId := e.generation],
      Insert(t.expiryIndex, (e.expiry, e.nodeId)),
      t.idToExpiry[e.nodeId := e.expiry],
      AddToBuckets(t.shardToIds, ids, e.nodeId),
      AddHoldings(t.idToShards, e.nodeId, ids),
      t.idToInformation[e.nodeId := e.information],
      t.idToLiveness[e.nodeId := 0])
  }

  function RemoveTables(t: Tables, nodeId: string): Tables {
    if nodeId !in t.idToGeneration then t
    else
      var ip := if nodeId in t.idToIp then t.idToIp[nodeId] else "";
      var expiry := if nodeId in t.idToExpiry then t.idToExpiry[nodeId] else 0;
      Tables(
        ReleaseIp(t.ipToId, ip, nodeId),
        t.idToIp - {nodeId},
        t.idToGeneration - {nodeId},
        Erase(t.expiryIndex, (expiry, nodeId)),
        t.idToExpiry - {nodeId},
        RemoveFromBuckets(t.shardToIds, Members(t.idToShards, nodeId), nodeId),
        t.idToShards - {nodeId},
        t.idToInformation - {nodeId},
        t.idToLiveness - {nodeId})
  }

  function StoreTables(t: Tables, e: DhtEntry): Tables {
    if e.nodeId !in t.idToGeneration then InsertTables(t, e)
    else if t.idToGeneration[e.nodeId] < e.generation then InsertTables(RemoveTables(t, e.nodeId), e)
    else t
  }

  function RemoveAll(t: Tables, nodeIds: seq<string>): Tables
    decreases |nodeIds|
  {
    if nodeIds == [] then t else RemoveAll(RemoveTables(t, nodeIds[0]), nodeIds[1..])
  }

  function CleanTables(t: Tables, now: int): Tables {
    RemoveAll(t, Expired(t.expiryIndex, now))
  }

  /** nullptr is None. */
  function QueryTables(t: Tables, shardId: string): Option<set<string>> {
    if shardId in t.shardToIds then Some(t.shardToIds[shardId]) else None
  }

  /** Erasing a key undoes the default that operator[] inserted for it. */
  lemma EraseUndoesDefault(m: map<string, set<string>>, key: string)
    ensures m[key := {}] - {key} == m - {key}
  {
  }

  // ---- one step of each loop over shards -----------------------------------------

  lemma AddOneToBuckets(buckets: map<string, set<string>>, shardIds: set<string>, s: string, nodeId: string)
    ensures var b := AddToBuckets(buckets, shardIds, nodeId);
            b[s := Members(b, s) + {nodeId}] == AddToBuckets(buckets, shardIds + {s}, nodeId)
  {
    var b, b' := AddToBuckets(buckets, shardIds, nodeId), AddToBuckets(buckets, shardIds + {s}, nodeId);
    assert b[s := Members(b, s) + {nodeId}].Keys == b'.Keys;
    assert Members(b, s) + {nodeId} == b'[s];
  }

  lemma RemoveOneFromBuckets(buckets: map<string, set<string>>, shardIds: set<string>, s: string, nodeId: string)
    ensures var b := RemoveFromBuckets(buckets, shardIds, nodeId);
            b[s := Members(b, s) - {nodeId}] == RemoveFromBuckets(buckets, shardIds + {s}, nodeId)
  {
    var b, b' := RemoveFromBuckets(buckets, shardIds, nodeId), RemoveFromBuckets(buckets, shardIds + {s}, nodeId);
    assert b[s := Members(b, s) - {nodeId}].Keys == b'.Keys;
    assert Members(b, s) - {nodeId} == b'[s];
  }

  lemma AddOneHolding(holdings: map<string, set<string>>, nodeId: string, shardIds: set<string>, s: string)
    ensures var h := AddHoldings(holdings, nodeId, shardIds);
            h[nodeId := Members(h, nodeId) + {s}] == AddHoldings(holdings, nodeId, shardIds + {s})
  {
    assert Members(AddHoldings(holdings, nodeId, shardIds), nodeId) + {s}
        == Members(holdings, nodeId) + (shardIds + {s});
  }
}
