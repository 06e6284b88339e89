/** Every run of node requests, from an empty index. */
module RequestRuns {
  import opened DhtTables
  import opened DhtNodes
  import opened DhtRuns
  import opened NodeRouters

  /** A request and the clock reading when it is served. */
  datatype Timed = Timed(request: Request, now: int)

  function TablesAfter(rs: seq<Timed>): Tables {
    if rs == [] then EMPTY_TABLES
    else TablesStep(TablesAfter(rs[..|rs| - 1]), rs[|rs| - 1].request, rs[|rs| - 1].now).0
  }

  function NodesAfter(rs: seq<Timed>): Nodes {
    if rs == [] then map[]
    else NodesStep(NodesAfter(rs[..|rs| - 1]), rs[|rs| - 1].request, rs[|rs| - 1].now).0
  }

  /** What the nine tables answer to request `k` of the run. */
  function Answer(rs: seq<Timed>, k: nat): Response
    requires k < |rs|
  {
    TablesStep(TablesAfter(rs[..k]), rs[k].request, rs[k].now).1
  }

  lemma {:induction false} RequestsRefine(rs: seq<Timed>)
    ensures Refines(TablesAfter(rs), NodesAfter(rs))
  {
    if rs == [] {
      EmptyRefines();
    } else {
      var last := rs[|rs| - 1];
      RequestsRefine(rs[..|rs| - 1]);
      StepSimulates(TablesAfter(rs[..|rs| - 1]), NodesAfter(rs[..|rs| - 1]), last.request, last.now);
    }
  }

  /** Every request of every run is answered as the simple map would answer it. */
  lemma RouterSimulatesMap(rs: seq<Timed>, k: nat)
    requires k < |rs|
    ensures Answer(rs, k) == NodesStep(NodesAfter(rs[..k]), rs[k].request, rs[k].now).1
  {
    RequestsRefine(rs[..k]);
    StepSimulates(TablesAfter(rs[..k]), NodesAfter(rs[..k]), rs[k].request, rs[k].now);
  }

  /** The index operation behind a request, if it has one. */
  function OpOf(r: Timed): seq<Op> {
    match Decode(r.request.verb, r.request.target)
    case StoreEntryBody => if r.request.body.Some? then [Store(r.request.body.value)] else []
    case CleanExpiry => [Clean(r.now)]
    case _ => []
  }

  function OpsOf(rs: seq<Timed>): seq<Op> {
    if rs == [] then [] else OpsOf(rs[..|rs| - 1]) + OpOf(rs[|rs| - 1])
  }

  lemma StepIsOp(t: Tables, m: Nodes, r: Timed)
    ensures TablesStep(t, r.request, r.now).0 == if OpOf(r) == [] then t else ApplyTables(t, OpOf(r)[0])
    ensures NodesStep(m, r.request, r.now).0 == if OpOf(r) == [] then m else ApplyNodes(m, OpOf(r)[0])
    ensures |OpOf(r)| <= 1
  {
  }

  lemma RunAtMostOneMore(ops: seq<Op>, more: seq<Op>)
    requires |more| <= 1
    ensures RunTables(ops + more) == if more == [] then RunTables(ops) else ApplyTables(RunTables(ops), more[0])
    ensures RunNodes(ops + more) == if more == [] then RunNodes(ops) else ApplyNodes(RunNodes(ops), more[0])
  {
    if more == [] {
      assert ops + more == ops;
    } else {
      assert more == [more[0]];
      RunOneMore(ops, more[0]);
    }
  }

  /** A run of requests is the run of the index operations it contains. */
  lemma {:induction false} RequestsAreOps(rs: seq<Timed>)
    ensures TablesAfter(rs) == RunTables(OpsOf(rs))
    ensures NodesAfter(rs) == RunNodes(OpsOf(rs))
  {
    if rs != [] {
      var init, last := rs[..|rs| - 1], rs[|rs| - 1];
      RequestsAreOps(init);
      StepIsOp(TablesAfter(init), NodesAfter(init), last);
      RunAtMostOneMore(OpsOf(init), OpOf(last));
    }
  }

  /** verify answers true exactly if the node was stored since a clean last removed it. */
  lemma VerifyAnswer(rs: seq<Timed>, k: nat, id: string)
    requires k < |rs| && Decode(rs[k].request.verb, rs[k].request.target) == VerifyNode(id)
    ensures var ops := OpsOf(rs[..k]);
            Answer(rs, k) == Response(200, Verified(id,
              exists j: nat :: LastRemoval(ops, id) <= j < |ops| && Stores(ops[j], id)))
  {
    RouterSimulatesMap(rs, k);
    RequestsAreOps(rs[..k]);
    LastWriterWins(OpsOf(rs[..k]), id);
  }

  /** Among the stores of `n` since its last removal number `j` wins, and `s` is its
      shard number `i`. */
  ghost predicate WinnerLists(ops: seq<Op>, n: string, s: string, j: nat, i: nat) {
    && Wins(ops, n, LastRemoval(ops, n), j)
    && i < |ops[j].entry.nodeShard| && ops[j].entry.nodeShard[i].shardId == s
  }

  lemma HolderIff(ops: seq<Op>, n: string, s: string)
    ensures n in Holders(RunNodes(ops), s) <==> exists j: nat, i: nat :: WinnerLists(ops, n, s, j, i)
  {
    LastWriterWins(ops, n);
    if n in Holders(RunNodes(ops), s) {
      var j := Winner(ops, n);
      ShardIdsIff(ops[j].entry.nodeShard, s);
      var i: nat :| i < |ops[j].entry.nodeShard| && ops[j].entry.nodeShard[i].shardId == s;
      assert WinnerLists(ops, n, s, j, i);
    }
    if j: nat, i: nat :| WinnerLists(ops, n, s, j, i) {
      ShardIdsIff(ops[j].entry.nodeShard, s);
    }
  }

  /** query lists exactly the nodes whose winning store lists the shard; a shard never
      seen and a shard whose holders all left get the same empty list. */
  lemma QueryAnswer(rs: seq<Timed>, k: nat, s: string, n: string)
    requires k < |rs| && s != "" && Decode(rs[k].request.verb, rs[k].request.target) == QueryShard(s)
    ensures Answer(rs, k).status == 200 && Answer(rs, k).body.Listed? && Answer(rs, k).body.shardId == s
    ensures n in Answer(rs, k).body.nodeIds <==>
            exists j: nat, i: nat :: WinnerLists(OpsOf(rs[..k]), n, s, j, i)
  {
    RouterSimulatesMap(rs, k);
    RequestsAreOps(rs[..k]);
    HolderIff(OpsOf(rs[..k]), n, s);
  }

  /** The request does not clean `id` away from `m`. */
  predicate Spares(m: Nodes, r: Timed, id: string) {
    Decode(r.request.verb, r.request.target) == CleanExpiry && id in m ==> m[id].expiry > r.now
  }

  lemma SparedIsLive(m: Nodes, r: Timed, id: string)
    requires id in m && Spares(m, r, id)
    ensures id in NodesStep(m, r.request, r.now).0
  {
  }

  lemma {:induction false} StaysLive(rs: seq<Timed>, i: nat, j: nat, id: string)
    requires i <= j <= |rs| && id in NodesAfter(rs[..i])
    requires forall k: nat | i <= k < j :: Spares(NodesAfter(rs[..k]), rs[k], id)
    ensures id in NodesAfter(rs[..j])
    decreases j - i
  {
    if i < j {
      assert id in NodesAfter(rs[..i + 1]) by {
        assert rs[..i + 1][..i] == rs[..i];
        SparedIsLive(NodesAfter(rs[..i]), rs[i], id);
      }
      StaysLive(rs, i + 1, j, id);
    }
  }

  lemma StoredIsLive(rs: seq<Timed>, i: nat, id: string)
    requires i < |rs| && Answer(rs, i) == Response(201, Stored(id))
    ensures id in NodesAfter(rs[..i + 1])
  {
    RouterSimulatesMap(rs, i);
    assert rs[..i + 1][..i] == rs[..i];
  }

  /** After a 201 store the node verifies as existing until a clean removes it. */
  lemma StoredVerifiesUntilCleaned(rs: seq<Timed>, i: nat, j: nat, id: string)
    requires i < j < |rs| && Answer(rs, i) == Response(201, Stored(id))
    requires forall k: nat | i < k < j :: Spares(NodesAfter(rs[..k]), rs[k], id)
    requires Decode(rs[j].request.verb, rs[j].request.target) == VerifyNode(id)
    ensures Answer(rs, j) == Response(200, Verified(id, true))
  {
    StoredIsLive(rs, i, id);
    StaysLive(rs, i + 1, j, id);
    RouterSimulatesMap(rs, j);
  }
}
