/** When the order and the repetition of stores do not matter. */
module StoreOrder {
  import opened DhtTables
  import opened DhtNodes
  import opened DhtRuns

  predicate StoreOnly(ops: seq<Op>) {
    forall op | op in ops :: op.Store?
  }

  /** `e` is among the stores with the greatest generation for its node. */
  ghost predicate IsTop(ops: seq<Op>, e: DhtEntry) {
    && Store(e) in ops
    && forall op | op in ops && Stores(op, e.nodeId) :: op.entry.generation <= e.generation
  }

  /** For every node, its newest stores agree on the record. */
  ghost predicate TopsAgree(ops: seq<Op>) {
    forall a, b | IsTop(ops, a) && IsTop(ops, b) && a.nodeId == b.nodeId :: RecordOf(a) == RecordOf(b)
  }

  lemma {:induction false} NothingRemoved(ops: seq<Op>, n: string)
    requires StoreOnly(ops)
    ensures LastRemoval(ops, n) == 0
  {
    if ops != [] {
      assert ops[|ops| - 1] in ops;
      NothingRemoved(ops[..|ops| - 1], n);
    }
  }

  lemma LiveIsTop(ops: seq<Op>, n: string) returns (e: DhtEntry)
    requires StoreOnly(ops) && n in RunNodes(ops)
    ensures IsTop(ops, e) && e.nodeId == n && RunNodes(ops)[n] == RecordOf(e)
  {
    NothingRemoved(ops, n);
    var k := Winner(ops, n);
    e := ops[k].entry;
    assert ops[k] == Store(e);
  }

  lemma StoredIsLive(ops: seq<Op>, e: DhtEntry)
    requires StoreOnly(ops) && Store(e) in ops
    ensures e.nodeId in RunNodes(ops)
  {
    NothingRemoved(ops, e.nodeId);
    var k :| 0 <= k < |ops| && ops[k] == Store(e);
    LastWriterWins(ops, e.nodeId);
  }

  lemma SameRecord(a: seq<Op>, b: seq<Op>, n: string)
    requires StoreOnly(a) && StoreOnly(b) && TopsAgree(a)
    requires forall op :: op in a <==> op in b
    requires n in RunNodes(a)
    ensures n in RunNodes(b) && RunNodes(b)[n] == RunNodes(a)[n]
  {
    var e := LiveIsTop(a, n);
    StoredIsLive(b, e);
    var e' := LiveIsTop(b, n);
    assert IsTop(a, e');
  }

  /** Runs with the same stores, in any order and repeated any number of times, end
      with the same id-keyed tables, expiry set and shard answers. */
  lemma SameStoresSameIndex(a: seq<Op>, b: seq<Op>)
    requires StoreOnly(a) && StoreOnly(b) && TopsAgree(a)
    requires forall op :: op in a <==> op in b
    ensures RunNodes(a) == RunNodes(b)
    ensures SameIndex(RunTables(a), RunTables(b))
  {
    assert TopsAgree(b) by {
      forall x, y | IsTop(b, x) && IsTop(b, y) && x.nodeId == y.nodeId ensures RecordOf(x) == RecordOf(y) {
        assert IsTop(a, x) && IsTop(a, y);
      }
    }
    forall n | n in RunNodes(a) ensures n in RunNodes(b) && RunNodes(b)[n] == RunNodes(a)[n] {
      SameRecord(a, b, n);
    }
    forall n | n in RunNodes(b) ensures n in RunNodes(a) {
      SameRecord(b, a, n);
    }
    assert RunNodes(a) == RunNodes(b);
    RunRefines(a);
    RunRefines(b);
    RefinedTablesAreDetermined(RunTables(a), RunTables(b), RunNodes(a));
  }

  /** Moving a newest store to the front makes it the winner. */
  lemma FrontWins(ops: seq<Op>, e: DhtEntry) returns (p: seq<Op>)
    requires StoreOnly(ops) && IsTop(ops, e)
    ensures multiset(p) == multiset(ops)
    ensures e.nodeId in RunNodes(p) && RunNodes(p)[e.nodeId] == RecordOf(e)
  {
    var k :| 0 <= k < |ops| && ops[k] == Store(e);
    p := [ops[k]] + (ops[..k] + ops[k + 1..]);
    assert ops == ops[..k] + [ops[k]] + ops[k + 1..];
    SameMembers(p, ops);
    NothingRemoved(p, e.nodeId);
    LastWriterWins(p, e.nodeId);
    assert Wins(p, e.nodeId, 0, 0) by {
      forall j: nat | j < |p| && Stores(p[j], e.nodeId)
        ensures p[j].entry.generation <= e.generation
      {
        assert p[j] in ops;
      }
    }
  }

  lemma SameMembers(p: seq<Op>, ops: seq<Op>)
    requires multiset(p) == multiset(ops)
    ensures forall op :: op in p <==> op in ops
    ensures StoreOnly(p) <==> StoreOnly(ops)
  {
    forall op ensures op in p <==> op in ops {
      assert op in p <==> op in multiset(p);
      assert op in ops <==> op in multiset(ops);
    }
  }

  /** Every permutation of the run ends with the same nodes. */
  ghost predicate OrderIrrelevant(ops: seq<Op>) {
    forall p | multiset(p) == multiset(ops) :: RunNodes(p) == RunNodes(ops)
  }

  lemma PermutationsDetermineTops(ops: seq<Op>, a: DhtEntry, b: DhtEntry)
    requires StoreOnly(ops) && IsTop(ops, a) && IsTop(ops, b) && a.nodeId == b.nodeId
    requires OrderIrrelevant(ops)
    ensures RecordOf(a) == RecordOf(b)
  {
    var p := FrontWins(ops, a);
    var q := FrontWins(ops, b);
    assert RunNodes(p) == RunNodes(ops) == RunNodes(q);
  }

  /** Every permutation of a run of stores ends with the same nodes exactly if, for
      each node, its newest stores agree. */
  lemma OrderIrrelevantIff(ops: seq<Op>)
    requires StoreOnly(ops)
    ensures OrderIrrelevant(ops) <==> TopsAgree(ops)
  {
    if TopsAgree(ops) {
      forall p | multiset(p) == multiset(ops) ensures RunNodes(p) == RunNodes(ops) {
        SameMembers(p, ops);
        SameStoresSameIndex(ops, p);
      }
    } else {
      var a, b :| IsTop(ops, a) && IsTop(ops, b) && a.nodeId == b.nodeId && RecordOf(a) != RecordOf(b);
      if OrderIrrelevant(ops) {
        PermutationsDetermineTops(ops, a, b);
      }
    }
  }

  lemma TwoStores(a: DhtEntry, b: DhtEntry)
    ensures RunTables([Store(a), Store(b)]) == StoreTables(StoreTables(EMPTY_TABLES, a), b)
  {
    RunOneMore([], Store(a));
    RunOneMore([Store(a)], Store(b));
    assert [] + [Store(a)] == [Store(a)];
    assert [Store(a)] + [Store(b)] == [Store(a), Store(b)];
  }

  /** The exclusion of the ip table is real: the later of two nodes claiming one ip owns it. */
  lemma IpsDependOnOrder(a: DhtEntry, b: DhtEntry)
    requires a.nodeId != b.nodeId && a.nodeIp == b.nodeIp
    ensures RunTables([Store(a), Store(b)]).ipToId != RunTables([Store(b), Store(a)]).ipToId
  {
    TwoStores(a, b);
    TwoStores(b, a);
    assert RunTables([Store(a), Store(b)]).ipToId[a.nodeIp] == b.nodeId;
    assert RunTables([Store(b), Store(a)]).ipToId[a.nodeIp] == a.nodeId;
  }

  /** The exclusion of empty buckets is real: an update that drops shard `s` leaves a
      bucket behind, a rejected older store never makes one. */
  lemma EmptyBucketsDependOnOrder(a: DhtEntry, b: DhtEntry, s: string)
    requires a.nodeId == b.nodeId && a.generation < b.generation
    requires s in ShardIds(a.nodeShard) && s !in ShardIds(b.nodeShard)
    ensures s in RunTables([Store(a), Store(b)]).shardToIds
    ensures s !in RunTables([Store(b), Store(a)]).shardToIds
  {
    TwoStores(a, b);
    TwoStores(b, a);
  }
}
