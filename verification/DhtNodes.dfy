/** The simple map that the nine tables speed up, the relation between the two, and
    the proof that every table operation simulates the map operation. */
module DhtNodes {
  import opened ExpiryIndex
  import opened DhtTables

  datatype Record = Record(ip: string, shards: set<string>, generation: int, expiry: int, information: string)

  type Nodes = map<string, Record>

  function RecordOf(e: DhtEntry): Record {
    Record(e.nodeIp, ShardIds(e.nodeShard), e.generation, e.expiry, e.information)
  }

  /** A store is accepted for an unknown node or a strictly newer generation. */
  predicate Accepts(m: Nodes, e: DhtEntry) {
    e.nodeId in m ==> m[e.nodeId].generation < e.generation
  }

  function StoreNode(m: Nodes, e: DhtEntry): Nodes {
    if Accepts(m, e) then m[e.nodeId := RecordOf(e)] else m
  }

  function CleanNodes(m: Nodes, now: int): Nodes {
    map n | n in m && m[n].expiry > now :: m[n]
  }

  function Holders(m: Nodes, shardId: string): set<string> {
    set n | n in m && shardId in m[n].shards
  }

  /** The five scalar tables keyed by node id (and the constant liveness). */
  ghost predicate ScalarTables(t: Tables, m: Nodes) {
    && t.idToIp.Keys == t.idToGeneration.Keys == t.idToExpiry.Keys == m.Keys
    && t.idToInformation.Keys == t.idToLiveness.Keys == m.Keys
    && forall n :: n in m ==>
      && t.idToIp[n] == m[n].ip && t.idToGeneration[n] == m[n].generation
      && t.idToExpiry[n] == m[n].expiry && t.idToInformation[n] == m[n].information
      && t.idToLiveness[n] == 0
  }

  /** A node has a row exactly when it holds some shard. */
  ghost predicate ShardsOfNode(t: Tables, m: Nodes) {
    && (forall n :: n in t.idToShards <==> n in m && m[n].shards != {})
    && (forall n :: n in t.idToShards ==> t.idToShards[n] == m[n].shards)
  }

  /** Every bucket holds exactly the live holders; empty buckets may linger. */
  ghost predicate NodesOfShard(t: Tables, m: Nodes) {
    && (forall s, n :: s in t.shardToIds ==> (n in t.shardToIds[s] <==> n in m && s in m[n].shards))
    && (forall s, n :: n in m && s in m[n].shards ==> s in t.shardToIds)
  }

  ghost predicate ExpiryTable(t: Tables, m: Nodes) {
    forall p: Pair :: p in t.expiryIndex <==> p.1 in m && m[p.1].expiry == p.0
  }

  /** A named owner of an ip is a live node recorded at that ip. */
  ghost predicate IpTable(t: Tables, m: Nodes) {
    forall ip :: ip in t.ipToId && t.ipToId[ip] != "" ==>
      t.ipToId[ip] in m && m[t.ipToId[ip]].ip == ip
  }

  ghost predicate Refines(t: Tables, m: Nodes) {
    && ScalarTables(t, m)
    && ShardsOfNode(t, m)
    && NodesOfShard(t, m)
    && ExpiryTable(t, m)
    && IpTable(t, m)
  }

  // ---- what the relation means for a reader of the tables -------------------------

  /** The two shard tables are mutual inverses, empty buckets aside. */
  lemma ShardTablesAreInverses(t: Tables, m: Nodes, n: string, s: string)
    requires Refines(t, m)
    ensures n in Members(t.shardToIds, s) <==> s in Members(t.idToShards, n)
    ensures n in Members(t.shardToIds, s) <==> n in m && s in m[n].shards
  {
    if n in m && s in m[n].shards { assert n in Holders(m, s); }
  }

  /** An id that is not live survives in no id-keyed table, bucket, expiry pair or ip binding. */
  lemma AbsentEverywhere(t: Tables, m: Nodes, n: string)
    requires Refines(t, m) && n !in m
    ensures n !in t.idToIp && n !in t.idToGeneration && n !in t.idToExpiry
    ensures n !in t.idToShards && n !in t.idToInformation && n !in t.idToLiveness
    ensures forall s :: s in t.shardToIds ==> n !in t.shardToIds[s]
    ensures forall p :: p in t.expiryIndex ==> p.1 != n
    ensures n != "" ==> n !in t.ipToId.Values
  {
  }

  /** Equal in everything but the ip table and the lingering empty buckets: the six
      scalar and set tables keyed by id, the expiry set, every shard query. */
  ghost predicate SameIndex(a: Tables, b: Tables) {
    && a.idToIp == b.idToIp && a.idToGeneration == b.idToGeneration && a.idToExpiry == b.idToExpiry
    && a.idToInformation == b.idToInformation && a.idToLiveness == b.idToLiveness
    && a.idToShards == b.idToShards
    && a.expiryIndex == b.expiryIndex
    && forall s :: Members(a.shardToIds, s) == Members(b.shardToIds, s)
  }

  lemma MembersAreHolders(t: Tables, m: Nodes, s: string)
    requires NodesOfShard(t, m)
    ensures Members(t.shardToIds, s) == Holders(m, s)
  {
  }

  lemma SameScalars(a: Tables, b: Tables, m: Nodes)
    requires ScalarTables(a, m) && ScalarTables(b, m)
    ensures a.idToIp == b.idToIp && a.idToGeneration == b.idToGeneration && a.idToExpiry == b.idToExpiry
    ensures a.idToInformation == b.idToInformation && a.idToLiveness == b.idToLiveness
  {
  }

  lemma SameShards(a: Tables, b: Tables, m: Nodes)
    requires ShardsOfNode(a, m) && ShardsOfNode(b, m)
    ensures a.idToShards == b.idToShards
  {
    assert a.idToShards.Keys == b.idToShards.Keys;
  }

  /** The tables are a function of the nodes, the ip table and empty buckets aside. */
  lemma RefinedTablesAreDetermined(a: Tables, b: Tables, m: Nodes)
    requires Refines(a, m) && Refines(b, m)
    ensures SameIndex(a, b)
  {
    SameScalars(a, b, m);
    SameShards(a, b, m);
    SortedIsUnique(a.expiryIndex, b.expiryIndex);
    forall s ensures Members(a.shardToIds, s) == Members(b.shardToIds, s) {
      MembersAreHolders(a, m, s);
      MembersAreHolders(b, m, s);
    }
  }

  // ---- every operation simulates the map operation -------------------------------

  lemma EmptyRefines()
    ensures Refines(EMPTY_TABLES, map[])
  {
  }

  lemma RemoveScalars(t: Tables, m: Nodes, n: string)
    requires ScalarTables(t, m) && n in m
    ensures ScalarTables(RemoveTables(t, n), m - {n})
  {
  }

  lemma RemoveShardsOfNode(t: Tables, m: Nodes, n: string)
    requires ShardsOfNode(t, m)
    requires n in t.idToGeneration
    ensures ShardsOfNode(RemoveTables(t, n), m - {n})
  {
  }

  lemma RemoveNodesOfShard(t: Tables, m: Nodes, n: string)
    requires NodesOfShard(t, m) && n in t.idToGeneration && n in m
    requires Members(t.idToShards, n) == m[n].shards
    ensures NodesOfShard(RemoveTables(t, n), m - {n})
  {
  }

  lemma RemoveExpiry(t: Tables, m: Nodes, n: string)
    requires ScalarTables(t, m) && ExpiryTable(t, m) && n in m
    ensures ExpiryTable(RemoveTables(t, n), m - {n})
  {
    assert t.idToExpiry[n] == m[n].expiry && n in t.idToGeneration;
  }

  lemma RemoveIp(t: Tables, m: Nodes, n: string)
    requires ScalarTables(t, m) && IpTable(t, m) && n in m
    ensures IpTable(RemoveTables(t, n), m - {n})
  {
    assert t.idToIp[n] == m[n].ip && n in t.idToGeneration;
  }

  lemma RemoveRefines(t: Tables, m: Nodes, n: string)
    requires Refines(t, m)
    ensures Refines(RemoveTables(t, n), m - {n})
  {
    if n in m {
      RemoveScalars(t, m, n);
      RemoveShardsOfNode(t, m, n);
      RemoveNodesOfShard(t, m, n);
      RemoveExpiry(t, m, n);
      RemoveIp(t, m, n);
    } else {
      assert m - {n} == m;
    }
  }

  lemma ReplaceNode(m: Nodes, n: string, r: Record)
    ensures (m - {n})[n := r] == m[n := r]
  {
  }

  function IdSet(ids: seq<string>): set<string> {
    set n | n in ids
  }

  lemma RemoveNone(m: Nodes, ids: seq<string>)
    requires ids == []
    ensures m - IdSet(ids) == m
  {
  }

  lemma RemoveHead(m: Nodes, ids: seq<string>)
    requires ids != []
    ensures (m - {ids[0]}) - IdSet(ids[1..]) == m - IdSet(ids)
  {
    assert ids == [ids[0]] + ids[1..];
  }

  lemma InsertScalars(t: Tables, m: Nodes, e: DhtEntry)
    requires ScalarTables(t, m)
    ensures ScalarTables(InsertTables(t, e), m[e.nodeId := RecordOf(e)])
  {
  }

  lemma InsertShardsOfNode(t: Tables, m: Nodes, e: DhtEntry)
    requires ShardsOfNode(t, m) && e.nodeId !in m
    ensures ShardsOfNode(InsertTables(t, e), m[e.nodeId := RecordOf(e)])
  {
  }

  lemma InsertNodesOfShard(t: Tables, m: Nodes, e: DhtEntry)
    requires NodesOfShard(t, m) && e.nodeId !in m
    ensures NodesOfShard(InsertTables(t, e), m[e.nodeId := RecordOf(e)])
  {
  }

  lemma InsertExpiryAndIp(t: Tables, m: Nodes, e: DhtEntry)
    requires ExpiryTable(t, m) && IpTable(t, m) && e.nodeId !in m
    ensures ExpiryTable(InsertTables(t, e), m[e.nodeId := RecordOf(e)])
    ensures IpTable(InsertTables(t, e), m[e.nodeId := RecordOf(e)])
  {
  }

  lemma InsertRefines(t: Tables, m: Nodes, e: DhtEntry)
    requires Refines(t, m) && e.nodeId !in m
    ensures Refines(InsertTables(t, e), m[e.nodeId := RecordOf(e)])
  {
    InsertScalars(t, m, e);
    InsertShardsOfNode(t, m, e);
    InsertNodesOfShard(t, m, e);
    InsertExpiryAndIp(t, m, e);
  }

  lemma StoreRefines(t: Tables, m: Nodes, e: DhtEntry)
    requires Refines(t, m)
    ensures Refines(StoreTables(t, e), StoreNode(m, e))
  {
    if Accepts(m, e) {
      if e.nodeId in m {
        RemoveRefines(t, m, e.nodeId);
        InsertRefines(RemoveTables(t, e.nodeId), m - {e.nodeId}, e);
        ReplaceNode(m, e.nodeId, RecordOf(e));
      } else {
        InsertRefines(t, m, e);
      }
    }
  }

  /** After an accepted store the node is in the bucket of every shard the entry lists, by
      position, and in no other, and its row holds exactly these shards. */
  lemma StoreIndexesEveryShard(t: Tables, m: Nodes, e: DhtEntry, s: string)
    requires Refines(t, m) && Accepts(m, e)
    ensures e.nodeId in Members(StoreTables(t, e).shardToIds, s) <==>
            exists i :: 0 <= i < |e.nodeShard| && e.nodeShard[i].shardId == s
    ensures s in Members(StoreTables(t, e).idToShards, e.nodeId) <==>
            exists i :: 0 <= i < |e.nodeShard| && e.nodeShard[i].shardId == s
  {
    StoreRefines(t, m, e);
    ShardTablesAreInverses(StoreTables(t, e), StoreNode(m, e), e.nodeId, s);
    ShardIdsIff(e.nodeShard, s);
  }

  /** And every other table holds the entry's own field for it; its liveness is 0. */
  lemma StoreRecordsFields(t: Tables, m: Nodes, e: DhtEntry)
    requires Refines(t, m) && Accepts(m, e)
    ensures var t' := StoreTables(t, e);
            && e.nodeIp in t'.ipToId && t'.ipToId[e.nodeIp] == e.nodeId
            && e.nodeId in t'.idToIp && t'.idToIp[e.nodeId] == e.nodeIp
            && e.nodeId in t'.idToGeneration && t'.idToGeneration[e.nodeId] == e.generation
            && e.nodeId in t'.idToExpiry && t'.idToExpiry[e.nodeId] == e.expiry
            && (e.expiry, e.nodeId) in t'.expiryIndex
            && e.nodeId in t'.idToInformation && t'.idToInformation[e.nodeId] == e.information
            && e.nodeId in t'.idToLiveness && t'.idToLiveness[e.nodeId] == 0
  {
    assert e.nodeId in m <==> e.nodeId in t.idToGeneration;
  }

  /** Bulk removal: closed form of what remains, whatever the order of removal. */
  lemma {:induction false} RemoveAllRefines(t: Tables, m: Nodes, ids: seq<string>)
    requires Refines(t, m)
    ensures Refines(RemoveAll(t, ids), m - IdSet(ids))
    decreases |ids|
  {
    if ids == [] {
      RemoveNone(m, ids);
    } else {
      RemoveRefines(t, m, ids[0]);
      RemoveAllRefines(RemoveTables(t, ids[0]), m - {ids[0]}, ids[1..]);
      RemoveHead(m, ids);
    }
  }

  /** The victims of the scan are exactly the expired live nodes. */
  lemma VictimsAreExpired(t: Tables, m: Nodes, now: int, n: string)
    requires ExpiryTable(t, m)
    ensures n in Expired(t.expiryIndex, now) <==> n in m && m[n].expiry <= now
  {
    var index, victims := t.expiryIndex, Expired(t.expiryIndex, now);
    ExpiredIsExact(index, now);
    if n in victims {
      var j :| 0 <= j < |victims| && victims[j] == n;
      assert index[j] in index;
    }
    if n in m && m[n].expiry <= now {
      assert (m[n].expiry, n) in index;
      var i :| 0 <= i < |index| && index[i] == (m[n].expiry, n);
      assert victims[i] == n;
    }
  }

  lemma CleanIsRemoval(m: Nodes, now: int, ids: seq<string>)
    requires forall n :: n in ids <==> n in m && m[n].expiry <= now
    ensures m - IdSet(ids) == CleanNodes(m, now)
  {
  }

  /** The early-exit scan is exact: cleaning keeps precisely the nodes that expire
      after `now`, with their records unchanged. */
  lemma CleanRefines(t: Tables, m: Nodes, now: int)
    requires Refines(t, m)
    ensures Refines(CleanTables(t, now), CleanNodes(m, now))
  {
    var victims := Expired(t.expiryIndex, now);
    forall n ensures n in victims <==> n in m && m[n].expiry <= now {
      VictimsAreExpired(t, m, now, n);
    }
    CleanIsRemoval(m, now, victims);
    RemoveAllRefines(t, m, victims);
  }
}
