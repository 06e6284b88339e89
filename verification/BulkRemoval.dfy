/** Removing many nodes: what the order cannot change, and why two cleans are one. */
module BulkRemoval {
  import opened ExpiryIndex
  import opened DhtTables
  import opened DhtNodes

  /** `ip` is bound to a named node; "" marks the phantom binding of line 46. */
  predicate Binds(t: Tables, ip: string, id: string) {
    id != "" && ip in t.ipToId && t.ipToId[ip] == id
  }

  lemma RemoveKeepsOtherBindings(t: Tables, m: Nodes, n: string, ip: string, id: string)
    requires Refines(t, m)
    ensures Binds(RemoveTables(t, n), ip, id) <==> Binds(t, ip, id) && id != n
  {
    if n in m {
      assert t.idToIp[n] == m[n].ip;
    } else {
      assert n !in t.idToGeneration;
    }
  }

  /** A named binding survives exactly if its node does. */
  lemma {:induction false} RemoveAllKeepsOtherBindings(t: Tables, m: Nodes, ids: seq<string>, ip: string, id: string)
    requires Refines(t, m)
    ensures Binds(RemoveAll(t, ids), ip, id) <==> Binds(t, ip, id) && id !in ids
    decreases |ids|
  {
    if ids != [] {
      RemoveKeepsOtherBindings(t, m, ids[0], ip, id);
      RemoveRefines(t, m, ids[0]);
      RemoveAllKeepsOtherBindings(RemoveTables(t, ids[0]), m - {ids[0]}, ids[1..], ip, id);
      assert ids == [ids[0]] + ids[1..];
    }
  }

  lemma RemoveKeepsBuckets(t: Tables, m: Nodes, n: string)
    requires Refines(t, m)
    ensures RemoveTables(t, n).shardToIds.Keys == t.shardToIds.Keys
  {
    if n in m {
      assert forall s | s in Members(t.idToShards, n) :: s in m[n].shards;
    }
  }

  /** Removal never drops a shard bucket, and never makes one. */
  lemma {:induction false} RemoveAllKeepsBuckets(t: Tables, m: Nodes, ids: seq<string>)
    requires Refines(t, m)
    ensures RemoveAll(t, ids).shardToIds.Keys == t.shardToIds.Keys
    decreases |ids|
  {
    if ids != [] {
      RemoveKeepsBuckets(t, m, ids[0]);
      RemoveRefines(t, m, ids[0]);
      RemoveAllKeepsBuckets(RemoveTables(t, ids[0]), m - {ids[0]}, ids[1..]);
    }
  }

  /** Removing the same nodes in any order, repeated or not, gives the same nine tables
      up to phantom ip bindings, even when the victims share ips and shards. */
  lemma BulkRemovalIsOrderIndependent(t: Tables, m: Nodes, a: seq<string>, b: seq<string>)
    requires Refines(t, m)
    requires forall n :: n in a <==> n in b
    ensures SameIndex(RemoveAll(t, a), RemoveAll(t, b))
    ensures RemoveAll(t, a).shardToIds == RemoveAll(t, b).shardToIds
    ensures forall ip, id :: Binds(RemoveAll(t, a), ip, id) <==> Binds(RemoveAll(t, b), ip, id)
  {
    var ta, tb := RemoveAll(t, a), RemoveAll(t, b);
    assert IdSet(a) == IdSet(b);
    RemoveAllRefines(t, m, a);
    RemoveAllRefines(t, m, b);
    RefinedTablesAreDetermined(ta, tb, m - IdSet(a));
    RemoveAllKeepsBuckets(t, m, a);
    RemoveAllKeepsBuckets(t, m, b);
    SameBuckets(ta, tb);
    forall ip, id ensures Binds(ta, ip, id) <==> Binds(tb, ip, id) {
      RemoveAllKeepsOtherBindings(t, m, a, ip, id);
      RemoveAllKeepsOtherBindings(t, m, b, ip, id);
    }
  }

  lemma SameBuckets(a: Tables, b: Tables)
    requires a.shardToIds.Keys == b.shardToIds.Keys
    requires forall s :: Members(a.shardToIds, s) == Members(b.shardToIds, s)
    ensures a.shardToIds == b.shardToIds
  {
    forall s | s in a.shardToIds ensures a.shardToIds[s] == b.shardToIds[s] {
      assert Members(a.shardToIds, s) == Members(b.shardToIds, s);
    }
  }

  // ---- cleaning twice ---------------------------------------------------------------

  lemma {:induction false} RemoveAllInTwo(t: Tables, a: seq<string>, b: seq<string>)
    ensures RemoveAll(t, a + b) == RemoveAll(RemoveAll(t, a), b)
    decreases |a|
  {
    if a == [] {
      assert a + b == b;
    } else {
      assert (a + b)[1..] == a[1..] + b;
      RemoveAllInTwo(RemoveTables(t, a[0]), a[1..], b);
    }
  }

  lemma PrependBoth(a: seq<string>, b: seq<string>, c: seq<string>)
    ensures a + (b + c) == (a + b) + c
  {
  }

  /** A later clock expires what the earlier one did, then more. */
  lemma {:induction false} ExpiredInTwo(s: seq<Pair>, t1: int, t2: int)
    requires t1 <= t2 && |Expired(s, t1)| <= |s|
    ensures Expired(s, t2) == Expired(s, t1) + Expired(s[|Expired(s, t1)|..], t2)
  {
    if s != [] && s[0].0 <= t1 {
      var rest, first := s[1..], Expired(s[1..], t1);
      ExpiredInTwo(rest, t1, t2);
      assert rest[|first|..] == s[|first| + 1..];
      PrependBoth([s[0].1], first, Expired(rest[|first|..], t2));
    }
  }

  lemma TailIsLater(s: seq<Pair>, k: nat, now: int, p: Pair)
    requires k <= |s| && (forall i | 0 <= i < k :: s[i].0 <= now) && forall i | k <= i < |s| :: s[i].0 > now
    ensures p in s[k..] <==> p in s && p.0 > now
  {
    var tail := s[k..];
    if p in tail {
      var j :| 0 <= j < |tail| && tail[j] == p;
      assert s[k + j] == p;
    }
    if p in s && p.0 > now {
      var i :| 0 <= i < |s| && s[i] == p;
      assert tail[i - k] == p;
    }
  }

  /** What the scan leaves unvisited is what is not expired. */
  lemma UnvisitedPairs(s: PairSet, now: int, p: Pair)
    requires |Expired(s, now)| <= |s|
    ensures p in s[|Expired(s, now)|..] <==> p in s && p.0 > now
  {
    var k := |Expired(s, now)|;
    assert (forall i | 0 <= i < k :: s[i].0 <= now) && forall i | k <= i < |s| :: s[i].0 > now by {
      ExpiredIsExact(s, now);
    }
    TailIsLater(s, k, now, p);
  }

  lemma PairsAfterClean(t: Tables, t': Tables, m: Nodes, now: int, p: Pair)
    requires ExpiryTable(t, m) && ExpiryTable(t', CleanNodes(m, now))
    ensures p in t'.expiryIndex <==> p in t.expiryIndex && p.0 > now
  {
  }

  /** After a clean, the expiry index is what the scan left unvisited. */
  lemma CleanedExpiryIndex(t: Tables, m: Nodes, now: int)
    requires Refines(t, m)
    ensures |Expired(t.expiryIndex, now)| <= |t.expiryIndex|
    ensures CleanTables(t, now).expiryIndex == t.expiryIndex[|Expired(t.expiryIndex, now)|..]
  {
    ExpiredIsExact(t.expiryIndex, now);
    CleanRefines(t, m, now);
    var rest: PairSet := t.expiryIndex[|Expired(t.expiryIndex, now)|..];
    forall p ensures p in CleanTables(t, now).expiryIndex <==> p in rest {
      UnvisitedPairs(t.expiryIndex, now, p);
      PairsAfterClean(t, CleanTables(t, now), m, now, p);
    }
    SortedIsUnique(CleanTables(t, now).expiryIndex, rest);
  }

  /** Cleaning at t1 and then at t2 >= t1 is cleaning at t2: all nine tables agree,
      phantom bindings included. */
  lemma CleanTwice(t: Tables, m: Nodes, t1: int, t2: int)
    requires Refines(t, m) && t1 <= t2
    ensures CleanTables(CleanTables(t, t1), t2) == CleanTables(t, t2)
    ensures CleanNodes(CleanNodes(m, t1), t2) == CleanNodes(m, t2)
  {
    var first := Expired(t.expiryIndex, t1);
    CleanedExpiryIndex(t, m, t1);
    ExpiredInTwo(t.expiryIndex, t1, t2);
    RemoveAllInTwo(t, first, Expired(t.expiryIndex[|first|..], t2));
  }
}
