/** Who owns an ip, over whole runs. */
module IpOwnership {
  import opened ExpiryIndex
  import opened DhtTables
  import opened DhtNodes
  import opened DhtRuns
  import opened BulkRemoval

  /** Operation `k` is a store that was accepted when it arrived. */
  predicate AcceptedAt(ops: seq<Op>, k: nat) {
    k < |ops| && ops[k].Store? && Accepts(RunNodes(ops[..k]), ops[k].entry)
  }

  /** The node of the last accepted store that named each ip. */
  function LatestClaimant(ops: seq<Op>): map<string, string> {
    if ops == [] then map[]
    else
      var claims := LatestClaimant(ops[..|ops| - 1]);
      if AcceptedAt(ops, |ops| - 1) then claims[ops[|ops| - 1].entry.nodeIp := ops[|ops| - 1].entry.nodeId]
      else claims
  }

  /** `ip` belongs to `id`: the latest claimant, still live and still recorded there. */
  predicate Owns(m: Nodes, claims: map<string, string>, ip: string, id: string) {
    ip in claims && claims[ip] == id && id in m && m[id].ip == ip
  }

  /** Named bindings are exactly ownership. */
  ghost predicate OwnersBound(t: Tables, m: Nodes, claims: map<string, string>) {
    forall ip, id | id != "" :: Binds(t, ip, id) <==> Owns(m, claims, ip, id)
  }

  lemma RemoveAllKeepsOwners(t: Tables, m: Nodes, claims: map<string, string>, ids: seq<string>)
    requires Refines(t, m) && OwnersBound(t, m, claims)
    ensures OwnersBound(RemoveAll(t, ids), m - IdSet(ids), claims)
  {
    forall ip, id | id != ""
      ensures Binds(RemoveAll(t, ids), ip, id) <==> Owns(m - IdSet(ids), claims, ip, id)
    {
      RemoveAllKeepsOtherBindings(t, m, ids, ip, id);
    }
  }

  lemma InsertMakesOwner(t: Tables, m: Nodes, claims: map<string, string>, e: DhtEntry)
    requires OwnersBound(t, m, claims) && e.nodeId !in m
    ensures OwnersBound(InsertTables(t, e), m[e.nodeId := RecordOf(e)], claims[e.nodeIp := e.nodeId])
  {
    var t', m', claims' := InsertTables(t, e), m[e.nodeId := RecordOf(e)], claims[e.nodeIp := e.nodeId];
    forall ip, id | id != "" ensures Binds(t', ip, id) <==> Owns(m', claims', ip, id) {
      assert Binds(t, ip, id) <==> Owns(m, claims, ip, id);
    }
  }

  lemma StoreKeepsOwners(t: Tables, m: Nodes, claims: map<string, string>, e: DhtEntry)
    requires Refines(t, m) && OwnersBound(t, m, claims) && Accepts(m, e)
    ensures OwnersBound(StoreTables(t, e), StoreNode(m, e), claims[e.nodeIp := e.nodeId])
  {
    if e.nodeId in m {
      RemoveAllKeepsOwners(t, m, claims, [e.nodeId]);
      assert RemoveAll(t, [e.nodeId]) == RemoveTables(t, e.nodeId) by {
        assert [e.nodeId][1..] == [];
      }
      assert IdSet([e.nodeId]) == {e.nodeId};
      InsertMakesOwner(RemoveTables(t, e.nodeId), m - {e.nodeId}, claims, e);
      ReplaceNode(m, e.nodeId, RecordOf(e));
    } else {
      InsertMakesOwner(t, m, claims, e);
    }
  }

  lemma CleanKeepsOwners(t: Tables, m: Nodes, claims: map<string, string>, now: int)
    requires Refines(t, m) && OwnersBound(t, m, claims)
    ensures OwnersBound(CleanTables(t, now), CleanNodes(m, now), claims)
  {
    var victims := Expired(t.expiryIndex, now);
    forall n ensures n in victims <==> n in m && m[n].expiry <= now {
      VictimsAreExpired(t, m, now, n);
    }
    CleanIsRemoval(m, now, victims);
    RemoveAllKeepsOwners(t, m, claims, victims);
  }

  /** In every reachable state an ip is bound to a named node exactly if that node is
      the latest accepted claimant of the ip, is live, and is recorded there. Every
      other binding is to "". */
  lemma {:induction false} RunKeepsOwners(ops: seq<Op>)
    ensures OwnersBound(RunTables(ops), RunNodes(ops), LatestClaimant(ops))
  {
    if ops != [] {
      var init, op := ops[..|ops| - 1], ops[|ops| - 1];
      RunKeepsOwners(init);
      RunRefines(init);
      match op
      case Store(e) =>
        if Accepts(RunNodes(init), e) {
          StoreKeepsOwners(RunTables(init), RunNodes(init), LatestClaimant(init), e);
        } else {
          assert e.nodeId in RunTables(init).idToGeneration;
        }
      case Clean(now) =>
        CleanKeepsOwners(RunTables(init), RunNodes(init), LatestClaimant(init), now);
    }
  }

  /** `k` is the last accepted store that named `ip`. */
  predicate IsLatestClaim(ops: seq<Op>, ip: string, k: nat) {
    && AcceptedAt(ops, k) && ops[k].entry.nodeIp == ip
    && forall j: nat | k < j < |ops| && AcceptedAt(ops, j) :: ops[j].entry.nodeIp != ip
  }

  lemma AcceptedInPrefix(ops: seq<Op>, k: nat)
    requires k + 1 < |ops|
    ensures AcceptedAt(ops, k) <==> AcceptedAt(ops[..|ops| - 1], k)
  {
    assert ops[..|ops| - 1][..k] == ops[..k];
  }

  lemma {:induction false} ClaimantIsLatest(ops: seq<Op>, ip: string) returns (k: nat)
    ensures ip in LatestClaimant(ops) ==>
              IsLatestClaim(ops, ip, k) && ops[k].entry.nodeId == LatestClaimant(ops)[ip]
    ensures ip !in LatestClaimant(ops) ==>
              forall j: nat | j < |ops| && AcceptedAt(ops, j) :: ops[j].entry.nodeIp != ip
  {
    k := 0;
    if ops != [] {
      var last := |ops| - 1;
      k := ClaimantIsLatest(ops[..last], ip);
      if AcceptedAt(ops, last) && ops[last].entry.nodeIp == ip {
        k := last;
      } else {
        forall j: nat | j < last ensures AcceptedAt(ops, j) <==> AcceptedAt(ops[..last], j) {
          AcceptedInPrefix(ops, j);
        }
      }
    }
  }

  /** The same, from the history alone. */
  lemma OwnerIsLatestClaimant(ops: seq<Op>, ip: string, id: string)
    requires id != ""
    ensures Binds(RunTables(ops), ip, id) <==>
            && id in RunNodes(ops) && RunNodes(ops)[id].ip == ip
            && exists k: nat :: IsLatestClaim(ops, ip, k) && ops[k].entry.nodeId == id
  {
    RunKeepsOwners(ops);
    var k := ClaimantIsLatest(ops, ip);
    assert Binds(RunTables(ops), ip, id) <==> Owns(RunNodes(ops), LatestClaimant(ops), ip, id);
    forall j: nat | IsLatestClaim(ops, ip, j) && ops[j].entry.nodeId == id
      ensures ip in LatestClaimant(ops) && LatestClaimant(ops)[ip] == id
    {
      assert j == k;
    }
  }

  // ---- phantoms ---------------------------------------------------------------------

  /** Every ip in use was claimed. */
  ghost predicate IpsWereClaimed(t: Tables, m: Nodes, claims: map<string, string>) {
    t.ipToId.Keys <= claims.Keys && forall n | n in m :: m[n].ip in claims
  }

  lemma RemoveKeepsClaimed(t: Tables, m: Nodes, claims: map<string, string>, n: string)
    requires Refines(t, m) && IpsWereClaimed(t, m, claims)
    ensures IpsWereClaimed(RemoveTables(t, n), m - {n}, claims)
  {
    if n in m {
      assert t.idToIp[n] == m[n].ip;
    } else {
      assert n !in t.idToGeneration;
    }
  }

  lemma {:induction false} RemoveAllKeepsClaimed(t: Tables, m: Nodes, claims: map<string, string>, ids: seq<string>)
    requires Refines(t, m) && IpsWereClaimed(t, m, claims)
    ensures IpsWereClaimed(RemoveAll(t, ids), m - IdSet(ids), claims)
    decreases |ids|
  {
    if ids != [] {
      RemoveKeepsClaimed(t, m, claims, ids[0]);
      RemoveRefines(t, m, ids[0]);
      RemoveHead(m, ids);
      RemoveAllKeepsClaimed(RemoveTables(t, ids[0]), m - {ids[0]}, claims, ids[1..]);
    }
  }

  lemma StoreKeepsClaimed(t: Tables, m: Nodes, claims: map<string, string>, e: DhtEntry)
    requires Refines(t, m) && IpsWereClaimed(t, m, claims) && Accepts(m, e)
    ensures IpsWereClaimed(StoreTables(t, e), StoreNode(m, e), claims[e.nodeIp := e.nodeId])
  {
    assert e.nodeId in m <==> e.nodeId in t.idToGeneration;
    RemoveKeepsClaimed(t, m, claims, e.nodeId);
  }

  lemma {:induction false} RunKeepsClaimed(ops: seq<Op>)
    ensures IpsWereClaimed(RunTables(ops), RunNodes(ops), LatestClaimant(ops))
  {
    if ops != [] {
      var init, op := ops[..|ops| - 1], ops[|ops| - 1];
      RunKeepsClaimed(init);
      RunRefines(init);
      var t, m := RunTables(init), RunNodes(init);
      match op
      case Store(e) =>
        if Accepts(m, e) {
          StoreKeepsClaimed(t, m, LatestClaimant(init), e);
        } else {
          assert e.nodeId in t.idToGeneration;
        }
      case Clean(now) =>
        var victims := Expired(t.expiryIndex, now);
        forall n ensures n in victims <==> n in m && m[n].expiry <= now {
          VictimsAreExpired(t, m, now, n);
        }
        CleanIsRemoval(m, now, victims);
        RemoveAllKeepsClaimed(t, m, LatestClaimant(init), victims);
    }
  }

  // ---- exclusive ips ----------------------------------------------------------------

  /** No accepted store names an ip recorded for a different live node. */
  ghost predicate ExclusiveIps(ops: seq<Op>) {
    forall k: nat | AcceptedAt(ops, k) :: ExclusiveClaim(RunNodes(ops[..k]), ops[k].entry)
  }

  ghost predicate ExclusiveClaim(m: Nodes, e: DhtEntry) {
    forall n | n in m && m[n].ip == e.nodeIp :: n == e.nodeId
  }

  /** ip->id and id->ip are exact inverses; in particular nothing is bound to a phantom. */
  ghost predicate IpsInverse(t: Tables) {
    && (forall ip | ip in t.ipToId :: t.ipToId[ip] in t.idToIp && t.idToIp[t.ipToId[ip]] == ip)
    && (forall id | id in t.idToIp :: t.idToIp[id] in t.ipToId && t.ipToId[t.idToIp[id]] == id)
  }

  lemma RemoveKeepsInverse(t: Tables, m: Nodes, n: string)
    requires Refines(t, m) && IpsInverse(t)
    ensures IpsInverse(RemoveTables(t, n))
  {
    if n in m {
      assert n in t.idToIp;
    } else {
      assert n !in t.idToGeneration;
    }
  }

  lemma {:induction false} RemoveAllKeepsInverse(t: Tables, m: Nodes, ids: seq<string>)
    requires Refines(t, m) && IpsInverse(t)
    ensures IpsInverse(RemoveAll(t, ids))
    decreases |ids|
  {
    if ids != [] {
      RemoveKeepsInverse(t, m, ids[0]);
      RemoveRefines(t, m, ids[0]);
      RemoveAllKeepsInverse(RemoveTables(t, ids[0]), m - {ids[0]}, ids[1..]);
    }
  }

  /** An exclusive newcomer finds both its id and its ip unused. */
  lemma ExclusiveIpIsVacant(t: Tables, m: Nodes, e: DhtEntry)
    requires ScalarTables(t, m) && IpsInverse(t) && e.nodeId !in m && ExclusiveClaim(m, e)
    ensures e.nodeId !in t.idToIp && e.nodeIp !in t.ipToId
  {
    assert forall ip | ip in t.ipToId :: t.ipToId[ip] in m && m[t.ipToId[ip]].ip == ip;
  }

  lemma InsertKeepsInverse(t: Tables, e: DhtEntry)
    requires IpsInverse(t) && e.nodeId !in t.idToIp && e.nodeIp !in t.ipToId
    ensures IpsInverse(InsertTables(t, e))
  {
  }

  lemma StoreKeepsInverse(t: Tables, m: Nodes, e: DhtEntry)
    requires Refines(t, m) && IpsInverse(t) && (Accepts(m, e) ==> ExclusiveClaim(m, e))
    ensures IpsInverse(StoreTables(t, e))
  {
    assert e.nodeId in m <==> e.nodeId in t.idToGeneration;
    if e.nodeId in m && m[e.nodeId].generation < e.generation {
      RemoveKeepsInverse(t, m, e.nodeId);
      RemoveRefines(t, m, e.nodeId);
      ExclusiveIpIsVacant(RemoveTables(t, e.nodeId), m - {e.nodeId}, e);
      InsertKeepsInverse(RemoveTables(t, e.nodeId), e);
    } else if e.nodeId !in m {
      ExclusiveIpIsVacant(t, m, e);
      InsertKeepsInverse(t, e);
    }
  }

  lemma {:induction false} ExclusiveRunKeepsInverse(ops: seq<Op>)
    requires ExclusiveIps(ops)
    ensures IpsInverse(RunTables(ops))
  {
    if ops != [] {
      var init, op := ops[..|ops| - 1], ops[|ops| - 1];
      ExclusivePrefix(ops);
      ExclusiveRunKeepsInverse(init);
      RunRefines(init);
      match op
      case Store(e) =>
        assert Accepts(RunNodes(init), e) ==> AcceptedAt(ops, |ops| - 1);
        StoreKeepsInverse(RunTables(init), RunNodes(init), e);
      case Clean(now) =>
        RemoveAllKeepsInverse(RunTables(init), RunNodes(init), Expired(RunTables(init).expiryIndex, now));
    }
  }

  lemma ExclusivePrefix(ops: seq<Op>)
    requires ops != [] && ExclusiveIps(ops)
    ensures ExclusiveIps(ops[..|ops| - 1])
  {
    var init := ops[..|ops| - 1];
    forall k: nat | AcceptedAt(init, k) ensures ExclusiveClaim(RunNodes(init[..k]), init[k].entry) {
      assert init[..k] == ops[..k];
      AcceptedInPrefix(ops, k);
    }
  }

  lemma {:induction false} ExclusiveTake(ops: seq<Op>, k: nat)
    requires ExclusiveIps(ops) && k <= |ops|
    ensures ExclusiveIps(ops[..k])
  {
    forall j: nat | AcceptedAt(ops[..k], j) ensures ExclusiveClaim(RunNodes(ops[..k][..j]), ops[..k][j].entry) {
      assert ops[..k][..j] == ops[..j];
      assert AcceptedAt(ops, j);
    }
  }

  /** After an accepted store its node owns the ip it named. */
  lemma StoreBindsIp(t: Tables, m: Nodes, e: DhtEntry)
    requires ScalarTables(t, m) && Accepts(m, e)
    ensures e.nodeIp in StoreTables(t, e).ipToId && StoreTables(t, e).ipToId[e.nodeIp] == e.nodeId
  {
    assert e.nodeId in m <==> e.nodeId in t.idToGeneration;
  }

  /** A claim on another live node's ip breaks the inverse at once. */
  lemma SharedIpBreaksInverse(ops: seq<Op>, k: nat)
    requires AcceptedAt(ops, k) && !ExclusiveClaim(RunNodes(ops[..k]), ops[k].entry)
    ensures k + 1 <= |ops| && !IpsInverse(RunTables(ops[..k + 1]))
  {
    var m, e := RunNodes(ops[..k]), ops[k].entry;
    var n :| n in m && m[n].ip == e.nodeIp && n != e.nodeId;
    assert ops[..k + 1] == ops[..k] + [ops[k]];
    RunOneMore(ops[..k], ops[k]);
    RunRefines(ops[..k]);
    StoreBindsIp(RunTables(ops[..k]), m, e);
    RunRefines(ops[..k + 1]);
    assert RunNodes(ops[..k + 1])[n] == m[n];
  }

  /** The ip tables are exact inverses throughout a run exactly if the run never shares
      an ip between live nodes. */
  lemma ExclusiveIffInverse(ops: seq<Op>)
    ensures ExclusiveIps(ops) <==> forall k: nat | k <= |ops| :: IpsInverse(RunTables(ops[..k]))
  {
    if ExclusiveIps(ops) {
      forall k: nat | k <= |ops| ensures IpsInverse(RunTables(ops[..k])) {
        ExclusiveTake(ops, k);
        ExclusiveRunKeepsInverse(ops[..k]);
      }
    } else {
      var k: nat :| AcceptedAt(ops, k) && !ExclusiveClaim(RunNodes(ops[..k]), ops[k].entry);
      SharedIpBreaksInverse(ops, k);
    }
  }
}
