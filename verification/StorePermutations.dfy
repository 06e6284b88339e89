/** When the order of stores does not matter to any of the nine tables. */
module StorePermutations {
  import opened DhtTables
  import opened DhtNodes
  import opened DhtRuns
  import opened StoreOrder
  import RemovalOrder
  import opened BulkRemoval
  import opened IpOwnership
  import opened ShardHistory

  /** Every order of the run ends with the same nine tables. */
  ghost predicate TablesIgnoreOrder(ops: seq<Op>) {
    forall p | multiset(p) == multiset(ops) :: RunTables(p) == RunTables(ops)
  }

  /** Any two stores that name one ip are of one node. */
  predicate IpsApart(ops: seq<Op>) {
    forall a, b | a in ops && b in ops && a.Store? && b.Store? && a.entry.nodeIp == b.entry.nodeIp ::
      a.entry.nodeId == b.entry.nodeId
  }

  ghost predicate TopNames(ops: seq<Op>, s: string) {
    exists top :: IsTop(ops, top) && s in ShardIds(top.nodeShard)
  }

  /** Every shard that some store names is named by a newest store of some node. */
  ghost predicate ShardsKept(ops: seq<Op>) {
    forall op, s | op in ops && op.Store? && s in ShardIds(op.entry.nodeShard) :: TopNames(ops, s)
  }

  // ---- enough ---------------------------------------------------------------------------

  lemma ApartIsExclusive(ops: seq<Op>)
    requires StoreOnly(ops) && IpsApart(ops)
    ensures ExclusiveIps(ops)
  {
    forall k: nat | AcceptedAt(ops, k) ensures ExclusiveClaim(RunNodes(ops[..k]), ops[k].entry) {
      forall n | n in RunNodes(ops[..k]) && RunNodes(ops[..k])[n].ip == ops[k].entry.nodeIp
        ensures n == ops[k].entry.nodeId
      {
        var e := LiveIsTop(ops[..k], n);
        assert Store(e) in ops && ops[k] in ops;
      }
    }
  }

  lemma IpsAreDetermined(a: Tables, b: Tables)
    requires IpsInverse(a) && IpsInverse(b) && a.idToIp == b.idToIp
    ensures a.ipToId == b.ipToId
  {
  }

  lemma TopIsHolder(ops: seq<Op>, top: DhtEntry, s: string)
    requires StoreOnly(ops) && TopsAgree(ops) && IsTop(ops, top) && s in ShardIds(top.nodeShard)
    ensures top.nodeId in Holders(RunNodes(ops), s)
  {
    StoredIsLive(ops, top);
    var e := LiveIsTop(ops, top.nodeId);
    assert RecordOf(e) == RecordOf(top);
  }

  lemma AcceptedShard(ops: seq<Op>, s: string) returns (op: Op)
    requires StoreOnly(ops) && s in RunTables(ops).shardToIds
    ensures op in ops && s in ShardIds(op.entry.nodeShard)
    ensures exists k: nat :: AcceptedAt(ops, k) && ops[k] == op
  {
    BucketsHoldAccepted(ops, s);
    var k: nat :| AcceptedAt(ops, k) && s in ShardIds(ops[k].entry.nodeShard);
    op := ops[k];
  }

  lemma BucketIsHeld(ops: seq<Op>, s: string)
    requires StoreOnly(ops) && TopsAgree(ops) && ShardsKept(ops) && s in RunTables(ops).shardToIds
    ensures Members(RunTables(ops).shardToIds, s) != {}
  {
    var op := AcceptedShard(ops, s);
    assert TopNames(ops, s);
    var top :| IsTop(ops, top) && s in ShardIds(top.nodeShard);
    TopIsHolder(ops, top, s);
    assert Members(RunTables(ops).shardToIds, s) == Holders(RunNodes(ops), s) by {
      RunRefines(ops);
      MembersAreHolders(RunTables(ops), RunNodes(ops), s);
    }
  }

  lemma SameElementsKeep(a: seq<Op>, b: seq<Op>)
    requires forall op :: op in a <==> op in b
    ensures StoreOnly(a) <==> StoreOnly(b)
    ensures TopsAgree(a) ==> TopsAgree(b)
    ensures ShardsKept(a) ==> ShardsKept(b)
    ensures IpsApart(a) ==> IpsApart(b)
  {
    assert forall e :: IsTop(a, e) <==> IsTop(b, e);
    if ShardsKept(a) {
      forall op, s | op in b && op.Store? && s in ShardIds(op.entry.nodeShard) ensures TopNames(b, s) {
        assert TopNames(a, s);
      }
    }
  }

  lemma BucketsAgree(a: Tables, b: Tables)
    requires forall s :: Members(a.shardToIds, s) == Members(b.shardToIds, s)
    requires forall s | s in a.shardToIds :: Members(a.shardToIds, s) != {}
    requires forall s | s in b.shardToIds :: Members(b.shardToIds, s) != {}
    ensures a.shardToIds == b.shardToIds
  {
    forall s ensures s in a.shardToIds <==> s in b.shardToIds {
      assert Members(a.shardToIds, s) == Members(b.shardToIds, s);
    }
    SameBuckets(a, b);
  }

  /** Under the three conditions, runs of the same stores in any order and number end
      with the same nine tables. */
  lemma SameStoresSameTables(a: seq<Op>, b: seq<Op>)
    requires StoreOnly(a) && TopsAgree(a) && IpsApart(a) && ShardsKept(a)
    requires forall op :: op in a <==> op in b
    ensures RunTables(a) == RunTables(b)
  {
    SameElementsKeep(a, b);
    SameStoresSameIndex(a, b);
    assert RunTables(a).ipToId == RunTables(b).ipToId by {
      ApartIsExclusive(a);
      ApartIsExclusive(b);
      ExclusiveRunKeepsInverse(a);
      ExclusiveRunKeepsInverse(b);
      IpsAreDetermined(RunTables(a), RunTables(b));
    }
    assert RunTables(a).shardToIds == RunTables(b).shardToIds by {
      forall s | s in RunTables(a).shardToIds ensures Members(RunTables(a).shardToIds, s) != {} { BucketIsHeld(a, s); }
      forall s | s in RunTables(b).shardToIds ensures Members(RunTables(b).shardToIds, s) != {} { BucketIsHeld(b, s); }
      BucketsAgree(RunTables(a), RunTables(b));
    }
  }

  // ---- rearranging a run ------------------------------------------------------------------

  ghost function Keep(ops: seq<Op>, f: Op -> bool): (r: seq<Op>)
    ensures forall op :: op in r <==> op in ops && f(op)
  {
    if ops == [] then []
    else
      assert forall op :: op in ops <==> op == ops[0] || op in ops[1..];
      (if f(ops[0]) then [ops[0]] else []) + Keep(ops[1..], f)
  }

  ghost function Drop(ops: seq<Op>, f: Op -> bool): (r: seq<Op>)
    ensures forall op :: op in r <==> op in ops && !f(op)
  {
    if ops == [] then []
    else
      assert forall op :: op in ops <==> op == ops[0] || op in ops[1..];
      (if f(ops[0]) then [] else [ops[0]]) + Drop(ops[1..], f)
  }

  lemma {:induction false} PartsAreAll(ops: seq<Op>, f: Op -> bool)
    ensures multiset(Keep(ops, f)) + multiset(Drop(ops, f)) == multiset(ops)
  {
    if ops != [] {
      PartsAreAll(ops[1..], f);
      assert ops == [ops[0]] + ops[1..];
    }
  }

  lemma Pull(ops: seq<Op>, op: Op) returns (rest: seq<Op>)
    requires op in ops
    ensures multiset(ops) == multiset{op} + multiset(rest)
    ensures forall o | o != op :: o in ops <==> o in rest
    ensures forall o | o in rest :: o in ops
  {
    var k :| 0 <= k < |ops| && ops[k] == op;
    rest := ops[..k] + ops[k + 1..];
    assert ops == ops[..k] + [op] + ops[k + 1..];
  }

  /** What is no longer new changes nothing. */
  lemma {:induction false} OldStoresAreIgnored(p: seq<Op>, tail: seq<Op>)
    requires forall op | op in tail :: op.Store? && !Accepts(RunNodes(p), op.entry)
    ensures RunTables(p + tail) == RunTables(p) && RunNodes(p + tail) == RunNodes(p)
    decreases |tail|
  {
    if tail == [] {
      assert p + tail == p;
    } else {
      var init, last := tail[..|tail| - 1], tail[|tail| - 1];
      assert last in tail && p + tail == (p + init) + [last];
      OldStoresAreIgnored(p, init);
      RunOneMore(p + init, last);
      RunRefines(p);
    }
  }

  lemma NewestOf(ops: seq<Op>, e: DhtEntry) returns (top: DhtEntry)
    requires StoreOnly(ops) && Store(e) in ops
    ensures IsTop(ops, top) && top.nodeId == e.nodeId && e.generation <= top.generation
  {
    StoredIsLive(ops, e);
    top := LiveIsTop(ops, e.nodeId);
    assert Stores(Store(e), top.nodeId);
  }

  lemma NeverStored(ops: seq<Op>, n: string)
    requires StoreOnly(ops) && forall op | op in ops :: op.entry.nodeId != n
    ensures n !in RunNodes(ops)
  {
    if n in RunNodes(ops) {
      var e := LiveIsTop(ops, n);
    }
  }

  // ---- the newest stores first --------------------------------------------------------------

  ghost function Newest(ops: seq<Op>): Op -> bool {
    (op: Op) => op.Store? && IsTop(ops, op.entry)
  }

  ghost function TopsFirst(ops: seq<Op>): seq<Op> {
    Keep(ops, Newest(ops)) + Drop(ops, Newest(ops))
  }

  lemma TopsFirstRuns(ops: seq<Op>)
    requires StoreOnly(ops)
    ensures multiset(TopsFirst(ops)) == multiset(ops)
    ensures RunTables(TopsFirst(ops)) == RunTables(Keep(ops, Newest(ops)))
  {
    var tops, others := Keep(ops, Newest(ops)), Drop(ops, Newest(ops));
    PartsAreAll(ops, Newest(ops));
    forall op | op in others ensures op.Store? && !Accepts(RunNodes(tops), op.entry) {
      var top := NewestOf(ops, op.entry);
      assert Newest(ops)(Store(top)) && Store(top) in tops;
      StoredIsLive(tops, top);
      var e := LiveIsTop(tops, top.nodeId);
      assert Stores(Store(top), e.nodeId);
    }
    OldStoresAreIgnored(tops, others);
  }

  /** Then every bucket is of a shard that a newest store names. */
  lemma TopsFirstBuckets(ops: seq<Op>, s: string)
    requires StoreOnly(ops) && s in RunTables(TopsFirst(ops)).shardToIds
    ensures TopNames(ops, s)
  {
    var tops := Keep(ops, Newest(ops));
    TopsFirstRuns(ops);
    var op := AcceptedShard(tops, s);
  }

  /** And every bound ip was named by a newest store. */
  lemma TopsFirstIps(ops: seq<Op>, ip: string) returns (top: DhtEntry)
    requires StoreOnly(ops) && ip in RunTables(TopsFirst(ops)).ipToId
    ensures IsTop(ops, top) && top.nodeIp == ip
  {
    var tops := Keep(ops, Newest(ops));
    TopsFirstRuns(ops);
    RunKeepsClaimed(tops);
    var k := ClaimantIsLatest(tops, ip);
    assert tops[k] in tops;
    top := tops[k].entry;
  }

  // ---- necessary: shards ------------------------------------------------------------------

  lemma FirstStoreMakesBuckets(op: Op, rest: seq<Op>, s: string)
    requires op.Store? && s in ShardIds(op.entry.nodeShard)
    ensures s in RunTables([op] + rest).shardToIds
  {
    var p := [op] + rest;
    assert AcceptedAt(p, 0) by { assert p[..0] == []; }
    BucketsHoldAccepted(p, s);
  }

  lemma NeedsShardKept(ops: seq<Op>, op: Op, s: string)
    requires StoreOnly(ops) && TablesIgnoreOrder(ops) && op in ops && s in ShardIds(op.entry.nodeShard)
    ensures TopNames(ops, s)
  {
    var rest := Pull(ops, op);
    FirstStoreMakesBuckets(op, rest, s);
    assert multiset(TopsFirst(ops)) == multiset(ops) by { TopsFirstRuns(ops); }
    SameTables(ops, [op] + rest, TopsFirst(ops));
    TopsFirstBuckets(ops, s);
  }

  lemma SameTables(ops: seq<Op>, p: seq<Op>, q: seq<Op>)
    requires TablesIgnoreOrder(ops) && multiset(p) == multiset(ops) == multiset(q)
    ensures RunTables(p) == RunTables(q)
  {
  }

  lemma NeedsShardsKept(ops: seq<Op>)
    requires StoreOnly(ops) && TablesIgnoreOrder(ops)
    ensures ShardsKept(ops)
  {
    forall op, s | op in ops && op.Store? && s in ShardIds(op.entry.nodeShard) ensures TopNames(ops, s) {
      NeedsShardKept(ops, op, s);
    }
  }

  // ---- necessary: newest stores agree -------------------------------------------------------

  lemma NodesAreDetermined(t: Tables, m: Nodes, m': Nodes)
    requires Refines(t, m) && Refines(t, m')
    ensures m == m'
  {
    forall n | n in m ensures m[n] == m'[n] {
      assert m[n].shards == m'[n].shards by {
        if n !in t.idToShards { assert m[n].shards == {} == m'[n].shards; }
      }
    }
  }

  lemma NeedsTopsAgree(ops: seq<Op>)
    requires StoreOnly(ops) && TablesIgnoreOrder(ops)
    ensures TopsAgree(ops)
  {
    forall p | multiset(p) == multiset(ops) ensures RunNodes(p) == RunNodes(ops) {
      RunRefines(p);
      RunRefines(ops);
      NodesAreDetermined(RunTables(ops), RunNodes(p), RunNodes(ops));
    }
    OrderIrrelevantIff(ops);
  }

  // ---- necessary: ips are apart ---------------------------------------------------------------

  ghost function Of(n: string): Op -> bool {
    (op: Op) => op.Store? && op.entry.nodeId == n
  }

  /** The run with the stores of one node last, `e` first among them. */
  ghost function NodeLast(rest: seq<Op>, e: DhtEntry): seq<Op> {
    Drop(rest, Of(e.nodeId)) + [Store(e)] + Keep(rest, Of(e.nodeId))
  }

  lemma NodeLastIsOrder(ops: seq<Op>, rest: seq<Op>, e: DhtEntry)
    requires multiset(ops) == multiset{Store(e)} + multiset(rest)
    ensures multiset(NodeLast(rest, e)) == multiset(ops)
  {
    PartsAreAll(rest, Of(e.nodeId));
  }

  /** Its first store is accepted, and its node then owns the ip it names. */
  lemma FirstClaim(front: seq<Op>, e: DhtEntry)
    requires StoreOnly(front) && forall op | op in front :: op.entry.nodeId != e.nodeId
    ensures RunNodes(front + [Store(e)]) == RunNodes(front)[e.nodeId := RecordOf(e)]
    ensures e.nodeIp in RunTables(front + [Store(e)]).ipToId
    ensures RunTables(front + [Store(e)]).ipToId[e.nodeIp] == e.nodeId
  {
    NeverStored(front, e.nodeId);
    RunOneMore(front, Store(e));
    RunRefines(front);
    StoreBindsIp(RunTables(front), RunNodes(front), e);
  }

  /** With a newest store first among them, the node keeps the ip it names. */
  lemma TopKeepsIp(rest: seq<Op>, e: DhtEntry)
    requires StoreOnly(rest)
    requires forall op | op in rest && op.entry.nodeId == e.nodeId :: op.entry.generation <= e.generation
    ensures e.nodeIp in RunTables(NodeLast(rest, e)).ipToId
    ensures RunTables(NodeLast(rest, e)).ipToId[e.nodeIp] == e.nodeId
  {
    var front := Drop(rest, Of(e.nodeId));
    FirstClaim(front, e);
    OldStoresAreIgnored(front + [Store(e)], Keep(rest, Of(e.nodeId)));
  }

  /** The node has the ip to itself, or not at all. */
  predicate OwnsOrLeft(t: Tables, m: Nodes, n: string, ip: string) {
    && (ip in t.ipToId <==> n in m && m[n].ip == ip)
    && (ip in t.ipToId ==> t.ipToId[ip] == n)
  }

  lemma OwnStoreKeepsIp(t: Tables, m: Nodes, e: DhtEntry, ip: string)
    requires Refines(t, m) && OwnsOrLeft(t, m, e.nodeId, ip)
    ensures OwnsOrLeft(StoreTables(t, e), StoreNode(m, e), e.nodeId, ip)
  {
    assert e.nodeId in m <==> e.nodeId in t.idToGeneration;
    if e.nodeId in m { assert t.idToIp[e.nodeId] == m[e.nodeId].ip; }
  }

  lemma {:induction false} OwnStoresKeepIp(p: seq<Op>, tail: seq<Op>, n: string, ip: string)
    requires OwnsOrLeft(RunTables(p), RunNodes(p), n, ip)
    requires forall op | op in tail :: op.Store? && op.entry.nodeId == n
    ensures OwnsOrLeft(RunTables(p + tail), RunNodes(p + tail), n, ip)
    decreases |tail|
  {
    if tail == [] {
      assert p + tail == p;
    } else {
      var init, last := tail[..|tail| - 1], tail[|tail| - 1];
      assert last in tail && p + tail == (p + init) + [last];
      OwnStoresKeepIp(p, init, n, ip);
      RunOneMore(p + init, last);
      RunRefines(p + init);
      OwnStoreKeepsIp(RunTables(p + init), RunNodes(p + init), last.entry, ip);
    }
  }

  /** Its own later stores hand the ip to no other node. */
  lemma LastNodeHandsOnNothing(rest: seq<Op>, e: DhtEntry)
    requires StoreOnly(rest)
    ensures var t := RunTables(NodeLast(rest, e)); e.nodeIp in t.ipToId ==> t.ipToId[e.nodeIp] == e.nodeId
  {
    var front := Drop(rest, Of(e.nodeId));
    FirstClaim(front, e);
    OwnStoresKeepIp(front + [Store(e)], Keep(rest, Of(e.nodeId)), e.nodeId, e.nodeIp);
  }

  /** A newest store and a store of another node cannot name one ip. */
  lemma TopsAreApart(ops: seq<Op>, top: DhtEntry, e: DhtEntry)
    requires StoreOnly(ops) && TablesIgnoreOrder(ops)
    requires IsTop(ops, top) && Store(e) in ops && top.nodeIp == e.nodeIp
    ensures top.nodeId == e.nodeId
  {
    var r := Pull(ops, Store(top));
    NodeLastIsOrder(ops, r, top);
    assert forall op | op in r && op.entry.nodeId == top.nodeId :: Stores(op, top.nodeId);
    TopKeepsIp(r, top);
    var r' := Pull(ops, Store(e));
    NodeLastIsOrder(ops, r', e);
    LastNodeHandsOnNothing(r', e);
    SameTables(ops, NodeLast(r, top), NodeLast(r', e));
  }

  // ---- two passers-by -------------------------------------------------------------------------

  /** `other` and then `owner` claim an ip, `owner` leaves it, and then `other` does. */
  predicate PassBy(other: DhtEntry, owner: DhtEntry, owner': DhtEntry, other': DhtEntry) {
    && other.nodeId == other'.nodeId != owner.nodeId == owner'.nodeId
    && other.nodeId != "" && other.nodeIp == owner.nodeIp
    && other'.nodeIp != other.nodeIp && owner'.nodeIp != other.nodeIp
    && other.generation < other'.generation && owner.generation < owner'.generation
  }

  /** The rows of a node that a later store of it looks at. */
  predicate Row(t: Tables, n: string, ip: string, generation: int) {
    n in t.idToGeneration && t.idToGeneration[n] == generation && n in t.idToIp && t.idToIp[n] == ip
  }

  lemma FreshStore(t: Tables, e: DhtEntry, n: string, ip: string, generation: int)
    requires e.nodeId !in t.idToGeneration && n != e.nodeId
    ensures var t' := StoreTables(t, e);
            && e.nodeIp in t'.ipToId && t'.ipToId[e.nodeIp] == e.nodeId
            && Row(t', e.nodeId, e.nodeIp, e.generation)
            && (Row(t', n, ip, generation) <==> Row(t, n, ip, generation))
            && (n in t'.idToGeneration <==> n in t.idToGeneration)
  {
  }

  /** A node that moves away releases the ip it owns, and binds one it does not own to
      what operator[] reads there. */
  lemma MovingStore(t: Tables, e: DhtEntry, ip: string, g: int, n: string, ip': string, g': int)
    requires Row(t, e.nodeId, ip, g) && g < e.generation && e.nodeIp != ip && n != e.nodeId
    ensures var t' := StoreTables(t, e);
            && (ip in t'.ipToId <==> RemovalOrder.OwnerOf(t, ip) != e.nodeId)
            && (Row(t', n, ip', g') <==> Row(t, n, ip', g'))
  {
  }

  lemma LeaveBoundTables(t: Tables, a: DhtEntry, b: DhtEntry, c: DhtEntry, d: DhtEntry)
    requires a.nodeId !in t.idToGeneration && b.nodeId !in t.idToGeneration && PassBy(a, b, c, d)
    ensures a.nodeIp in StoreTables(StoreTables(StoreTables(StoreTables(t, a), b), c), d).ipToId
  {
    var ip := a.nodeIp;
    var t1 := StoreTables(t, a);
    assert Row(t1, a.nodeId, ip, a.generation) && b.nodeId !in t1.idToGeneration by {
      FreshStore(t, a, b.nodeId, ip, b.generation);
    }
    var t2 := StoreTables(t1, b);
    assert Row(t2, a.nodeId, ip, a.generation) && Row(t2, b.nodeId, ip, b.generation)
        && RemovalOrder.OwnerOf(t2, ip) == b.nodeId by {
      FreshStore(t1, b, a.nodeId, ip, a.generation);
    }
    var t3 := StoreTables(t2, c);
    assert Row(t3, a.nodeId, ip, a.generation) && RemovalOrder.OwnerOf(t3, ip) == "" by {
      MovingStore(t2, c, ip, b.generation, a.nodeId, ip, a.generation);
    }
    MovingStore(t3, d, ip, a.generation, b.nodeId, ip, b.generation);
  }

  lemma LeaveBoundNodes(m: Nodes, a: DhtEntry, b: DhtEntry, c: DhtEntry, d: DhtEntry)
    requires a.nodeId !in m && b.nodeId !in m && PassBy(a, b, c, d)
    ensures StoreNode(StoreNode(StoreNode(StoreNode(m, a), b), c), d) ==
            m[b.nodeId := RecordOf(c)][a.nodeId := RecordOf(d)]
  {
  }

  lemma NewestIsNewer(ops: seq<Op>, e: DhtEntry) returns (top: DhtEntry)
    requires StoreOnly(ops) && Store(e) in ops && !IsTop(ops, e)
    ensures IsTop(ops, top) && top.nodeId == e.nodeId && e.generation < top.generation
  {
    top := NewestOf(ops, e);
  }

  function Four(a: DhtEntry, b: DhtEntry, c: DhtEntry, d: DhtEntry): seq<Op> {
    [Store(a), Store(b), Store(c), Store(d)]
  }

  lemma PullFour(ops: seq<Op>, a: DhtEntry, b: DhtEntry, c: DhtEntry, d: DhtEntry) returns (rest: seq<Op>)
    requires Store(a) in ops && Store(b) in ops && Store(c) in ops && Store(d) in ops && PassBy(a, b, c, d)
    ensures multiset(ops) == multiset(Four(a, b, c, d)) + multiset(rest)
    ensures forall op | op in rest :: op in ops
  {
    rest := Pull(ops, Store(a));
    rest := Pull(rest, Store(b));
    rest := Pull(rest, Store(c));
    rest := Pull(rest, Store(d));
  }

  lemma TwoRun(p: seq<Op>, a: DhtEntry, b: DhtEntry)
    ensures RunTables(p + [Store(a), Store(b)]) == StoreTables(StoreTables(RunTables(p), a), b)
    ensures RunNodes(p + [Store(a), Store(b)]) == StoreNode(StoreNode(RunNodes(p), a), b)
  {
    assert p + [Store(a), Store(b)] == p + [Store(a)] + [Store(b)];
    RunOneMore(p, Store(a));
    RunOneMore(p + [Store(a)], Store(b));
  }

  lemma FourRun(p: seq<Op>, a: DhtEntry, b: DhtEntry, c: DhtEntry, d: DhtEntry)
    ensures RunTables(p + Four(a, b, c, d)) ==
            StoreTables(StoreTables(StoreTables(StoreTables(RunTables(p), a), b), c), d)
    ensures RunNodes(p + Four(a, b, c, d)) ==
            StoreNode(StoreNode(StoreNode(StoreNode(RunNodes(p), a), b), c), d)
  {
    assert p + Four(a, b, c, d) == p + [Store(a), Store(b)] + [Store(c), Store(d)];
    TwoRun(p, a, b);
    TwoRun(p + [Store(a), Store(b)], c, d);
  }

  ghost function OfEither(n: string, n': string): Op -> bool {
    (op: Op) => op.Store? && (op.entry.nodeId == n || op.entry.nodeId == n')
  }

  /** The run with the stores of two nodes last, four of them first among these. */
  ghost function PassByLast(rest: seq<Op>, a: DhtEntry, b: DhtEntry, c: DhtEntry, d: DhtEntry): seq<Op> {
    Drop(rest, OfEither(a.nodeId, b.nodeId)) + Four(a, b, c, d) + Keep(rest, OfEither(a.nodeId, b.nodeId))
  }

  /** It leaves the ip bound to the empty id. */
  lemma PassByLeavesBound(rest: seq<Op>, a: DhtEntry, b: DhtEntry, c: DhtEntry, d: DhtEntry)
    requires StoreOnly(rest) && PassBy(a, b, c, d)
    requires forall op | op in rest && op.entry.nodeId == a.nodeId :: op.entry.generation <= d.generation
    requires forall op | op in rest && op.entry.nodeId == b.nodeId :: op.entry.generation <= c.generation
    ensures a.nodeIp in RunTables(PassByLast(rest, a, b, c, d)).ipToId
  {
    var either := OfEither(a.nodeId, b.nodeId);
    var front := Drop(rest, either);
    var p, back := front + Four(a, b, c, d), Keep(rest, either);
    NeverStored(front, a.nodeId);
    NeverStored(front, b.nodeId);
    assert a.nodeIp in RunTables(p).ipToId by {
      RunRefines(front);
      FourRun(front, a, b, c, d);
      LeaveBoundTables(RunTables(front), a, b, c, d);
    }
    assert RunNodes(p) == RunNodes(front)[b.nodeId := RecordOf(c)][a.nodeId := RecordOf(d)] by {
      FourRun(front, a, b, c, d);
      LeaveBoundNodes(RunNodes(front), a, b, c, d);
    }
    OldStoresAreIgnored(p, back);
  }

  lemma PassByOrder(ops: seq<Op>, a: DhtEntry, b: DhtEntry, c: DhtEntry, d: DhtEntry) returns (p: seq<Op>)
    requires StoreOnly(ops) && PassBy(a, b, c, d) && IsTop(ops, c) && IsTop(ops, d)
    requires Store(a) in ops && Store(b) in ops
    ensures multiset(p) == multiset(ops) && a.nodeIp in RunTables(p).ipToId
  {
    var rest := PullFour(ops, a, b, c, d);
    p := PassByLast(rest, a, b, c, d);
    assert multiset(p) == multiset(ops) by { PartsAreAll(rest, OfEither(a.nodeId, b.nodeId)); }
    assert forall op | op in rest && op.entry.nodeId == a.nodeId :: Stores(op, d.nodeId);
    assert forall op | op in rest && op.entry.nodeId == b.nodeId :: Stores(op, c.nodeId);
    PassByLeavesBound(rest, a, b, c, d);
  }

  /** Two stores of different nodes cannot name one ip that no newest store names. */
  lemma PassersByAreOne(ops: seq<Op>, a: DhtEntry, b: DhtEntry)
    requires StoreOnly(ops) && TablesIgnoreOrder(ops)
    requires Store(a) in ops && Store(b) in ops && a.nodeIp == b.nodeIp && a.nodeId != ""
    requires forall top | IsTop(ops, top) :: top.nodeIp != a.nodeIp
    ensures a.nodeId == b.nodeId
  {
    if a.nodeId != b.nodeId {
      var c := NewestIsNewer(ops, b);
      var d := NewestIsNewer(ops, a);
      var p := PassByOrder(ops, a, b, c, d);
      assert multiset(TopsFirst(ops)) == multiset(ops) by { TopsFirstRuns(ops); }
      SameTables(ops, p, TopsFirst(ops));
      var top := TopsFirstIps(ops, a.nodeIp);
    }
  }

  lemma NeedsIpsApart(ops: seq<Op>)
    requires StoreOnly(ops) && TablesIgnoreOrder(ops)
    ensures IpsApart(ops)
  {
    forall a, b | a in ops && b in ops && a.Store? && b.Store? && a.entry.nodeIp == b.entry.nodeIp
      ensures a.entry.nodeId == b.entry.nodeId
    {
      if top :| IsTop(ops, top) && top.nodeIp == a.entry.nodeIp {
        TopsAreApart(ops, top, a.entry);
        TopsAreApart(ops, top, b.entry);
      } else if a.entry.nodeId != "" {
        PassersByAreOne(ops, a.entry, b.entry);
      } else if b.entry.nodeId != "" {
        PassersByAreOne(ops, b.entry, a.entry);
      }
    }
  }

  /** Every order of a run of stores ends with the same nine tables if and only if the
      newest stores of each node agree, no two nodes name one ip, and every shard named is
      named by a newest store. */
  lemma TablesIgnoreOrderIff(ops: seq<Op>)
    requires StoreOnly(ops)
    ensures TablesIgnoreOrder(ops) <==> TopsAgree(ops) && IpsApart(ops) && ShardsKept(ops)
  {
    if TablesIgnoreOrder(ops) {
      NeedsTopsAgree(ops);
      NeedsIpsApart(ops);
      NeedsShardsKept(ops);
    } else if TopsAgree(ops) && IpsApart(ops) && ShardsKept(ops) {
      forall p | multiset(p) == multiset(ops) ensures RunTables(p) == RunTables(ops) {
        SameMembers(p, ops);
        SameStoresSameTables(ops, p);
      }
    }
  }
}
