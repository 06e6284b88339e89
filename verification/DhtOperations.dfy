/** DHT_operation: nine mutable containers, updated in place, that always agree with
    one map of live nodes. */
module DhtOperations {
  import opened Wrappers
  import opened ExpiryIndex
  import opened DhtTables
  import opened DhtNodes

  class DhtOperation {
    var nodeIpToNodeId: map<string, string>
    var nodeIdToNodeIp: map<string, string>
    var nodeIdToGeneration: map<string, int>
    var expiryToNodeId: PairSet
    var nodeIdToExpiry: map<string, int>
    var shardIdToNodeIds: map<string, set<string>>
    var nodeIdToShardIds: map<string, set<string>>
    var nodeIdToInformation: map<string, string>
    var nodeIdToLiveness: map<string, int>

    /** The live nodes and their records. */
    ghost var nodes: Nodes

    function Tables(): Tables
      reads this
    {
      DhtTables.Tables.Tables(nodeIpToNodeId, nodeIdToNodeIp, nodeIdToGeneration, expiryToNodeId, nodeIdToExpiry,
                              shardIdToNodeIds, nodeIdToShardIds, nodeIdToInformation, nodeIdToLiveness)
    }

    ghost predicate Valid()
      reads this
    {
      Refines(Tables(), nodes)
    }

    constructor ()
      ensures Valid() && nodes == map[] && Tables() == EMPTY_TABLES
    {
      nodeIpToNodeId, nodeIdToNodeIp, nodeIdToGeneration := map[], map[], map[];
      expiryToNodeId, nodeIdToExpiry := [], map[];
      shardIdToNodeIds, nodeIdToShardIds := map[], map[];
      nodeIdToInformation, nodeIdToLiveness := map[], map[];
      nodes := map[];
      new;
      EmptyRefines();
    }

    method VerifyEntry(nodeId: string) returns (exists_: bool)
      requires Valid()
      ensures exists_ <==> nodeId in nodes
    {
      exists_ := nodeId in nodeIdToGeneration;
    }

    method StoreEntry(entry: DhtEntry)
      requires Valid()
      modifies this
      ensures Valid()
      ensures nodes == StoreNode(old(nodes), entry)
      ensures Tables() == StoreTables(old(Tables()), entry)
    {
      ghost var t, m := Tables(), nodes;
      var known := VerifyEntry(entry.nodeId);
      if known {
        if nodeIdToGeneration[entry.nodeId] < entry.generation {
          RemoveEntry(entry.nodeId);
        } else {
          return;
        }
      }
      UpdateAllTables(entry);
      nodes := StoreNode(m, entry);
      assert Tables() == StoreTables(t, entry);
      StoreRefines(t, m, entry);
    }

    /** Lines 20-30. */
    method UpdateAllTables(entry: DhtEntry)
      modifies this
      ensures Tables() == InsertTables(old(Tables()), entry)
    {
      nodeIpToNodeId := nodeIpToNodeId[entry.nodeIp := entry.nodeId];
      nodeIdToNodeIp := nodeIdToNodeIp[entry.nodeId := entry.nodeIp];
      nodeIdToGeneration := nodeIdToGeneration[entry.nodeId := entry.generation];
      expiryToNodeId := Insert(expiryToNodeId, (entry.expiry, entry.nodeId));
      nodeIdToExpiry := nodeIdToExpiry[entry.nodeId := entry.expiry];
      IndexShards(entry.nodeShard, entry.nodeId);
      nodeIdToInformation := nodeIdToInformation[entry.nodeId := entry.information];
      nodeIdToLiveness := nodeIdToLiveness[entry.nodeId := 0];
    }

    /** Lines 25-28: the loop over the entry's shards. */
    method IndexShards(shards: seq<Shard>, nodeId: string)
      modifies this`shardIdToNodeIds, this`nodeIdToShardIds
      ensures shardIdToNodeIds == AddToBuckets(old(shardIdToNodeIds), ShardIds(shards), nodeId)
      ensures nodeIdToShardIds == AddHoldings(old(nodeIdToShardIds), nodeId, ShardIds(shards))
    {
      for i := 0 to |shards|
        invariant shardIdToNodeIds == AddToBuckets(old(shardIdToNodeIds), ShardIds(shards[..i]), nodeId)
        invariant nodeIdToShardIds == AddHoldings(old(nodeIdToShardIds), nodeId, ShardIds(shards[..i]))
      {
        var s := shards[i].shardId;
        assert shards[..i + 1] == shards[..i] + [shards[i]];
        assert ShardIds(shards[..i + 1]) == ShardIds(shards[..i]) + {s};
        AddOneToBuckets(old(shardIdToNodeIds), ShardIds(shards[..i]), s, nodeId);
        AddOneHolding(old(nodeIdToShardIds), nodeId, ShardIds(shards[..i]), s);
        shardIdToNodeIds := shardIdToNodeIds[s := Members(shardIdToNodeIds, s) + {nodeId}];
        nodeIdToShardIds := nodeIdToShardIds[nodeId := Members(nodeIdToShardIds, nodeId) + {s}];
      }
      assert shards[..|shards|] == shards;
    }

    /** nullptr is None: it means the shard has no bucket, not that it has no holders. */
    method QueryNodeIdsByShardId(shardId: string) returns (ids: Option<set<string>>)
      requires Valid()
      ensures ids == QueryTables(Tables(), shardId)
      ensures (if ids.Some? then ids.value else {}) == Holders(nodes, shardId)
    {
      MembersAreHolders(Tables(), nodes, shardId);
      if shardId in shardIdToNodeIds {
        ids := Some(shardIdToNodeIds[shardId]);
      } else {
        ids := None;
      }
    }

    method RemoveEntry(nodeId: string)
      requires Valid()
      modifies this
      ensures Valid()
      ensures nodes == old(nodes) - {nodeId}
      ensures Tables() == RemoveTables(old(Tables()), nodeId)
    {
      RemoveRefines(Tables(), nodes, nodeId);
      var known := VerifyEntry(nodeId);
      if known {
        UnpickTables(nodeId);
      }
      nodes := nodes - {nodeId};
    }

    /** Lines 45-60. The rows read through operator[] on lines 45 and 56 exist. */
    method UnpickTables(nodeId: string)
      requires nodeId in nodeIdToGeneration && nodeId in nodeIdToNodeIp && nodeId in nodeIdToExpiry
      modifies this
      ensures nodes == old(nodes)
      ensures Tables() == RemoveTables(old(Tables()), nodeId)
    {
      ReleaseNodeIp(nodeIdToNodeIp[nodeId], nodeId);
      nodeIdToNodeIp := nodeIdToNodeIp - {nodeId};
      nodeIdToGeneration := nodeIdToGeneration - {nodeId};
      LeaveShards(nodeId);
      EraseRows(nodeId);
    }

    /** Lines 56-60. */
    method EraseRows(nodeId: string)
      requires nodeId in nodeIdToExpiry
      modifies this`expiryToNodeId, this`nodeIdToExpiry, this`nodeIdToShardIds
      modifies this`nodeIdToInformation, this`nodeIdToLiveness
      ensures expiryToNodeId == Erase(old(expiryToNodeId), (old(nodeIdToExpiry)[nodeId], nodeId))
      ensures nodeIdToExpiry == old(nodeIdToExpiry) - {nodeId}
      ensures nodeIdToShardIds == old(nodeIdToShardIds) - {nodeId}
      ensures nodeIdToInformation == old(nodeIdToInformation) - {nodeId}
      ensures nodeIdToLiveness == old(nodeIdToLiveness) - {nodeId}
    {
      expiryToNodeId := Erase(expiryToNodeId, (nodeIdToExpiry[nodeId], nodeId));
      nodeIdToExpiry := nodeIdToExpiry - {nodeId};
      nodeIdToShardIds := nodeIdToShardIds - {nodeId};
      nodeIdToInformation := nodeIdToInformation - {nodeId};
      nodeIdToLiveness := nodeIdToLiveness - {nodeId};
    }

    /** Lines 46-48: a newer owner of the ip keeps it, and an unbound ip becomes bound to "". */
    method ReleaseNodeIp(nodeIp: string, nodeId: string)
      modifies this`nodeIpToNodeId
      ensures nodeIpToNodeId == ReleaseIp(old(nodeIpToNodeId), nodeIp, nodeId)
    {
      if nodeIp !in nodeIpToNodeId {
        nodeIpToNodeId := nodeIpToNodeId[nodeIp := ""];
      }
      if nodeIpToNodeId[nodeIp] == nodeId {
        nodeIpToNodeId := nodeIpToNodeId - {nodeIp};
      }
    }

    /** Lines 53-55: the loop over the removed node's shards, in any order. A node
        without a row gets an empty one, which line 58 then erases. */
    method LeaveShards(nodeId: string)
      modifies this`shardIdToNodeIds, this`nodeIdToShardIds
      ensures shardIdToNodeIds ==
              RemoveFromBuckets(old(shardIdToNodeIds), Members(old(nodeIdToShardIds), nodeId), nodeId)
      ensures nodeIdToShardIds - {nodeId} == old(nodeIdToShardIds) - {nodeId}
    {
      EraseUndoesDefault(nodeIdToShardIds, nodeId);
      if nodeId !in nodeIdToShardIds {
        nodeIdToShardIds := nodeIdToShardIds[nodeId := {}];
      }
      var held := nodeIdToShardIds[nodeId];
      var todo := held;
      while todo != {}
        invariant todo <= held
        invariant shardIdToNodeIds == RemoveFromBuckets(old(shardIdToNodeIds), held - todo, nodeId)
        invariant nodeIdToShardIds - {nodeId} == old(nodeIdToShardIds) - {nodeId}
      {
        var s :| s in todo;
        RemoveOneFromBuckets(old(shardIdToNodeIds), held - todo, s, nodeId);
        shardIdToNodeIds := shardIdToNodeIds[s := Members(shardIdToNodeIds, s) - {nodeId}];
        assert held - (todo - {s}) == (held - todo) + {s};
        todo := todo - {s};
      }
      assert held - todo == held;
    }

    /** Lines 70-79: the early-exit scan. It looks at no more than one pair that is
        not expired. */
    method CollectExpired(now: int) returns (victims: seq<string>, inspected: nat)
      ensures victims == Expired(expiryToNodeId, now)
      ensures |victims| <= inspected <= |victims| + 1
      ensures forall i | 0 <= i < |expiryToNodeId| :: i < |victims| <==> expiryToNodeId[i].0 <= now
    {
      victims, inspected := [], 0;
      var it := 0;
      while it < |expiryToNodeId|
        invariant 0 <= it <= |expiryToNodeId| && |victims| == it == inspected
        invariant forall i | 0 <= i < it :: expiryToNodeId[i].0 <= now
        invariant victims + Expired(expiryToNodeId[it..], now) == Expired(expiryToNodeId, now)
      {
        ExpiredStep(expiryToNodeId, it, now, victims, Expired(expiryToNodeId, now));
        inspected := inspected + 1;
        if expiryToNodeId[it].0 <= now {
          victims := victims + [expiryToNodeId[it].1];
          it := it + 1;
        } else {
          break;
        }
      }
      ExpiredIsExact(expiryToNodeId, now);
    }

    /** `now` is the clock reading in seconds. */
    method CleanByExpiryTime(now: int)
      requires Valid()
      modifies this
      ensures Valid()
      ensures nodes == CleanNodes(old(nodes), now)
      ensures Tables() == CleanTables(old(Tables()), now)
    {
      var victims, _ := CollectExpired(now);
      forall n ensures n in victims <==> n in nodes && nodes[n].expiry <= now {
        VictimsAreExpired(Tables(), nodes, now, n);
      }
      CleanIsRemoval(nodes, now, victims);
      RemoveVictims(victims);
    }

    /** Lines 82-84: the removal loop. */
    method RemoveVictims(victims: seq<string>)
      requires Valid()
      modifies this
      ensures Valid()
      ensures nodes == old(nodes) - IdSet(victims)
      ensures Tables() == RemoveAll(old(Tables()), victims)
    {
      for i := 0 to |victims|
        invariant Valid()
        invariant RemoveAll(Tables(), victims[i..]) == RemoveAll(old(Tables()), victims)
        invariant nodes - IdSet(victims[i..]) == old(nodes) - IdSet(victims)
      {
        RemoveHead(nodes, victims[i..]);
        RemoveEntry(victims[i]);
      }
      RemoveNone(nodes, victims[|victims|..]);
    }
  }
}
