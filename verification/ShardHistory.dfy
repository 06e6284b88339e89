/** Shard buckets remember every shard that was ever accepted. */
module ShardHistory {
  import opened Wrappers
  import opened ExpiryIndex
  import opened DhtTables
  import opened DhtNodes
  import opened DhtRuns
  import opened BulkRemoval
  import opened IpOwnership

  /** Some accepted store of the run listed shard `s`. */
  ghost predicate EverAccepted(ops: seq<Op>, s: string) {
    exists k: nat, i: nat :: ListedAt(ops, k, i, s)
  }

  /** Store number `k` was accepted, and `s` is its shard number `i`. */
  ghost predicate ListedAt(ops: seq<Op>, k: nat, i: nat, s: string) {
    AcceptedAt(ops, k) && i < |ops[k].entry.nodeShard| && ops[k].entry.nodeShard[i].shardId == s
  }

  ghost predicate ShardAccepted(ops: seq<Op>, s: string) {
    exists k: nat :: AcceptedAt(ops, k) && s in ShardIds(ops[k].entry.nodeShard)
  }

  lemma EverAcceptedIff(ops: seq<Op>, s: string)
    ensures EverAccepted(ops, s) <==> ShardAccepted(ops, s)
  {
    if k: nat :| AcceptedAt(ops, k) && s in ShardIds(ops[k].entry.nodeShard) {
      ShardIdsIff(ops[k].entry.nodeShard, s);
      var i: nat :| i < |ops[k].entry.nodeShard| && ops[k].entry.nodeShard[i].shardId == s;
      assert ListedAt(ops, k, i, s);
    }
    if k: nat, i: nat :| ListedAt(ops, k, i, s) {
      ShardIdsIff(ops[k].entry.nodeShard, s);
    }
  }

  lemma ShardAcceptedStep(ops: seq<Op>, s: string)
    requires ops != []
    ensures ShardAccepted(ops, s) <==>
            || ShardAccepted(ops[..|ops| - 1], s)
            || (AcceptedAt(ops, |ops| - 1) && s in ShardIds(ops[|ops| - 1].entry.nodeShard))
  {
    var init := ops[..|ops| - 1];
    forall k: nat | k < |init| ensures AcceptedAt(ops, k) <==> AcceptedAt(init, k) {
      AcceptedInPrefix(ops, k);
    }
    if ShardAccepted(init, s) {
      var k: nat :| AcceptedAt(init, k) && s in ShardIds(init[k].entry.nodeShard);
      assert AcceptedAt(ops, k) && s in ShardIds(ops[k].entry.nodeShard);
    }
    if ShardAccepted(ops, s) {
      var k: nat :| AcceptedAt(ops, k) && s in ShardIds(ops[k].entry.nodeShard);
      assert k < |init| ==> AcceptedAt(init, k) && s in ShardIds(init[k].entry.nodeShard);
    }
  }

  lemma StoreAddsBuckets(t: Tables, m: Nodes, e: DhtEntry)
    requires Refines(t, m)
    ensures StoreTables(t, e).shardToIds.Keys ==
            t.shardToIds.Keys + if Accepts(m, e) then ShardIds(e.nodeShard) else {}
  {
    assert e.nodeId in m <==> e.nodeId in t.idToGeneration;
    RemoveKeepsBuckets(t, m, e.nodeId);
  }

  lemma {:induction false} BucketsHoldAccepted(ops: seq<Op>, s: string)
    ensures s in RunTables(ops).shardToIds <==> ShardAccepted(ops, s)
  {
    if ops != [] {
      var init, op := ops[..|ops| - 1], ops[|ops| - 1];
      BucketsHoldAccepted(init, s);
      ShardAcceptedStep(ops, s);
      RunRefines(init);
      match op
      case Store(e) => StoreAddsBuckets(RunTables(init), RunNodes(init), e);
      case Clean(now) =>
        RemoveAllKeepsBuckets(RunTables(init), RunNodes(init), Expired(RunTables(init).expiryIndex, now));
    }
  }

  /** The bucket keys are exactly the shards that ever occurred in an accepted store. */
  lemma BucketsRecordHistory(ops: seq<Op>, s: string)
    ensures s in RunTables(ops).shardToIds <==> EverAccepted(ops, s)
  {
    BucketsHoldAccepted(ops, s);
    EverAcceptedIff(ops, s);
  }

  /** A query answers nullptr exactly for shards that were never accepted; for every
      other shard it lists exactly the live holders, possibly none. */
  lemma QueryAnswers(ops: seq<Op>, s: string)
    ensures QueryTables(RunTables(ops), s) ==
            if EverAccepted(ops, s) then Some(Holders(RunNodes(ops), s)) else None
    ensures !EverAccepted(ops, s) ==> Holders(RunNodes(ops), s) == {}
  {
    BucketsRecordHistory(ops, s);
    RunRefines(ops);
    MembersAreHolders(RunTables(ops), RunNodes(ops), s);
  }

  /** Bucket keys only grow. */
  lemma BucketsOnlyGrow(ops: seq<Op>, more: seq<Op>)
    ensures RunTables(ops).shardToIds.Keys <= RunTables(ops + more).shardToIds.Keys
  {
    forall s | s in RunTables(ops).shardToIds ensures s in RunTables(ops + more).shardToIds {
      BucketsHoldAccepted(ops, s);
      BucketsHoldAccepted(ops + more, s);
      var k: nat :| AcceptedAt(ops, k) && s in ShardIds(ops[k].entry.nodeShard);
      assert (ops + more)[..k] == ops[..k];
      assert AcceptedAt(ops + more, k);
    }
  }

  /** The documented "nullptr if no nodes contain the shard" is not what the code does:
      a shard whose last holder expired still has a bucket, an empty one. */
  lemma DrainedShardIsNotNull(e: DhtEntry, i: nat, now: int)
    requires i < |e.nodeShard| && e.expiry <= now
    ensures QueryTables(RunTables([Store(e), Clean(now)]), e.nodeShard[i].shardId) == Some({})
  {
    var ops, s := [Store(e), Clean(now)], e.nodeShard[i].shardId;
    RunOneMore([], Store(e));
    RunOneMore([Store(e)], Clean(now));
    assert [] + [Store(e)] == [Store(e)] && [Store(e)] + [Clean(now)] == ops;
    assert ListedAt(ops, 0, i, s) by { assert ops[..0] == []; }
    QueryAnswers(ops, s);
    assert Holders(RunNodes(ops), s) == {};
  }
}
