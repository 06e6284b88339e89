/** When removing many nodes leaves an ip bound to the empty id, and when the order of
    removal matters at all. Node ids may be empty too. */
module RemovalOrder {
  import opened DhtTables
  import opened DhtNodes
  import opened BulkRemoval

  /** What operator[] reads on line 46: "" for an ip that is not bound. */
  function OwnerOf(t: Tables, ip: string): string {
    if ip in t.ipToId then t.ipToId[ip] else ""
  }

  predicate BoundToEmpty(t: Tables, ip: string) {
    ip in t.ipToId && t.ipToId[ip] == ""
  }

  predicate RecordedAt(m: Nodes, n: string, ip: string) {
    n in m && m[n].ip == ip
  }

  /** Removing the owner of an ip releases it; removing another node recorded there binds
      it to what operator[] read; no other removal touches it. */
  lemma RemovalBinding(t: Tables, m: Nodes, n: string, ip: string)
    requires Refines(t, m)
    ensures var t' := RemoveTables(t, n);
            if RecordedAt(m, n, ip) then
              && (ip in t'.ipToId <==> OwnerOf(t, ip) != n)
              && OwnerOf(t', ip) == if OwnerOf(t, ip) == n then "" else OwnerOf(t, ip)
            else (ip in t'.ipToId <==> ip in t.ipToId) && OwnerOf(t', ip) == OwnerOf(t, ip)
  {
    if n in m {
      assert t.idToIp[n] == m[n].ip && n in t.idToGeneration;
    } else {
      assert n !in t.idToGeneration;
    }
  }

  lemma OwnerIsRecorded(t: Tables, m: Nodes, ip: string)
    requires IpTable(t, m)
    ensures OwnerOf(t, ip) != "" ==> RecordedAt(m, OwnerOf(t, ip), ip)
  {
  }

  /** A node with the empty id is among the removed and recorded at `ip`. */
  predicate EmptyDeparts(m: Nodes, ids: seq<string>, ip: string) {
    "" in ids && RecordedAt(m, "", ip)
  }

  /** Removal number `j` takes a named node from `ip`, for the first time, when the named
      owner there was at the start, if any, is gone; and the empty id does not leave
      `ip` afterwards. */
  ghost predicate LeavesEmpty(owner: string, m: Nodes, ids: seq<string>, ip: string, j: nat) {
    && j < |ids| && ids[j] != "" && RecordedAt(m, ids[j], ip) && ids[j] !in ids[..j]
    && (owner == "" || owner in ids[..j])
    && (EmptyDeparts(m, ids, ip) ==> "" in ids[..j])
  }

  /** The owner after the first removal. */
  function NextOwner(owner: string, m: Nodes, n: string, ip: string): string {
    if RecordedAt(m, n, ip) && owner == n then "" else owner
  }

  lemma LaterRemoval(owner: string, m: Nodes, ids: seq<string>, ip: string, j: nat)
    requires ids != [] && (owner != "" ==> RecordedAt(m, owner, ip))
    ensures LeavesEmpty(NextOwner(owner, m, ids[0], ip), m - {ids[0]}, ids[1..], ip, j) <==>
            LeavesEmpty(owner, m, ids, ip, j + 1)
  {
    if j + 1 < |ids| {
      assert ids[1..][j] == ids[j + 1];
      assert ids[..j + 1] == [ids[0]] + ids[1..][..j];
      assert ids == [ids[0]] + ids[1..];
    }
  }

  ghost predicate SomeRemovalLeavesEmpty(owner: string, m: Nodes, ids: seq<string>, ip: string) {
    exists j: nat :: LeavesEmpty(owner, m, ids, ip, j)
  }

  lemma FirstOrLater(owner: string, m: Nodes, ids: seq<string>, ip: string)
    requires ids != [] && (owner != "" ==> RecordedAt(m, owner, ip))
    ensures SomeRemovalLeavesEmpty(owner, m, ids, ip) <==>
            || LeavesEmpty(owner, m, ids, ip, 0)
            || SomeRemovalLeavesEmpty(NextOwner(owner, m, ids[0], ip), m - {ids[0]}, ids[1..], ip)
  {
    if j: nat :| LeavesEmpty(owner, m, ids, ip, j) {
      if j > 0 { LaterRemoval(owner, m, ids, ip, j - 1); }
    }
    if j: nat :| LeavesEmpty(NextOwner(owner, m, ids[0], ip), m - {ids[0]}, ids[1..], ip, j) {
      LaterRemoval(owner, m, ids, ip, j);
    }
  }

  lemma EmptyDepartsLater(m: Nodes, ids: seq<string>, ip: string)
    requires ids != []
    ensures EmptyDeparts(m - {ids[0]}, ids[1..], ip) <==> EmptyDeparts(m, ids, ip) && ids[0] != ""
  {
    assert ids == [ids[0]] + ids[1..];
  }

  /** `ip` is bound to the empty id once `ids` are removed, if it is now exactly when
      `bound`, and `owner` is what operator[] reads there. */
  ghost predicate RemovalsEndEmpty(bound: bool, owner: string, m: Nodes, ids: seq<string>, ip: string) {
    (bound && !EmptyDeparts(m, ids, ip)) || SomeRemovalLeavesEmpty(owner, m, ids, ip)
  }

  lemma RemovalsStep(bound: bool, owner: string, m: Nodes, ids: seq<string>, ip: string)
    requires ids != [] && (owner != "" ==> RecordedAt(m, owner, ip)) && (bound ==> owner == "")
    ensures var bound' := if RecordedAt(m, ids[0], ip) then owner == "" != ids[0] else bound;
            RemovalsEndEmpty(bound', NextOwner(owner, m, ids[0], ip), m - {ids[0]}, ids[1..], ip) <==>
            RemovalsEndEmpty(bound, owner, m, ids, ip)
  {
    FirstOrLater(owner, m, ids, ip);
    EmptyDepartsLater(m, ids, ip);
  }

  /** For every list of removals: an ip ends bound to the empty id exactly if it was so
      before and no node with the empty id leaves it, or some removal leaves it so. */
  lemma {:induction false} BoundToEmptyIff(t: Tables, m: Nodes, ids: seq<string>, ip: string)
    requires Refines(t, m)
    ensures BoundToEmpty(RemoveAll(t, ids), ip) <==> RemovalsEndEmpty(BoundToEmpty(t, ip), OwnerOf(t, ip), m, ids, ip)
    decreases |ids|
  {
    if ids != [] {
      RemoveRefines(t, m, ids[0]);
      BoundToEmptyIff(RemoveTables(t, ids[0]), m - {ids[0]}, ids[1..], ip);
      RemovalBinding(t, m, ids[0], ip);
      OwnerIsRecorded(t, m, ip);
      RemovalsStep(BoundToEmpty(t, ip), OwnerOf(t, ip), m, ids, ip);
    }
  }

  // ---- when the order matters -------------------------------------------------------

  /** Two victims recorded at one ip: what operator[] reads as its owner, and a named one. */
  predicate SharesOwnedIp(t: Tables, m: Nodes, ids: seq<string>, owner: string, other: string) {
    && owner in ids && other in ids && owner != other && other != ""
    && owner in m && other in m && m[owner].ip == m[other].ip
    && OwnerOf(t, m[owner].ip) == owner
  }

  /** Every order of the removals ends with the same nine tables. */
  ghost predicate OrderIrrelevant(t: Tables, ids: seq<string>) {
    forall p | multiset(p) == multiset(ids) :: RemoveAll(t, p) == RemoveAll(t, ids)
  }

  lemma EmptyWithoutSharing(t: Tables, m: Nodes, ids: seq<string>, ip: string)
    requires Refines(t, m)
    requires forall owner, other :: !SharesOwnedIp(t, m, ids, owner, other)
    ensures BoundToEmpty(RemoveAll(t, ids), ip) <==>
            && !EmptyDeparts(m, ids, ip)
            && OwnerOf(t, ip) == ""
            && (ip in t.ipToId || exists n :: n in ids && n != "" && RecordedAt(m, n, ip))
  {
    var owner := OwnerOf(t, ip);
    BoundToEmptyIff(t, m, ids, ip);
    OwnerIsRecorded(t, m, ip);
    if j: nat :| LeavesEmpty(owner, m, ids, ip, j) {
      assert ids[j] in ids;
      assert owner != "" ==> SharesOwnedIp(t, m, ids, owner, ids[j]);
      assert EmptyDeparts(m, ids, ip) && owner == "" ==> SharesOwnedIp(t, m, ids, "", ids[j]);
    }
    if owner == "" && !EmptyDeparts(m, ids, ip) {
      if n :| n in ids && n != "" && RecordedAt(m, n, ip) {
        var j := FirstOccurrence(ids, n);
        assert LeavesEmpty(owner, m, ids, ip, j);
      }
    }
  }

  lemma FirstOccurrence(ids: seq<string>, n: string) returns (j: nat)
    requires n in ids
    ensures j < |ids| && ids[j] == n && n !in ids[..j]
  {
    j := 0;
    while ids[j] != n
      invariant j < |ids| && n !in ids[..j] && n in ids[j..]
      decreases |ids| - j
    {
      j := j + 1;
    }
  }

  /** Without sharing, the ids removed decide the ip table. */
  lemma IpsWithoutSharing(t: Tables, m: Nodes, a: seq<string>, b: seq<string>, ip: string)
    requires Refines(t, m) && forall n :: n in a <==> n in b
    requires forall owner, other :: !SharesOwnedIp(t, m, a, owner, other)
    ensures ip in RemoveAll(t, a).ipToId <==> ip in RemoveAll(t, b).ipToId
    ensures ip in RemoveAll(t, a).ipToId ==> RemoveAll(t, a).ipToId[ip] == RemoveAll(t, b).ipToId[ip]
  {
    assert forall owner, other :: SharesOwnedIp(t, m, b, owner, other) ==> SharesOwnedIp(t, m, a, owner, other);
    var ta, tb := RemoveAll(t, a), RemoveAll(t, b);
    assert BoundToEmpty(ta, ip) <==> BoundToEmpty(tb, ip) by {
      EmptyWithoutSharing(t, m, a, ip);
      EmptyWithoutSharing(t, m, b, ip);
    }
    if ip in ta.ipToId { SameBinding(t, m, a, b, ip, ta.ipToId[ip]); }
    if ip in tb.ipToId { SameBinding(t, m, a, b, ip, tb.ipToId[ip]); }
  }

  lemma SameBinding(t: Tables, m: Nodes, a: seq<string>, b: seq<string>, ip: string, id: string)
    requires Refines(t, m) && forall n :: n in a <==> n in b
    ensures Binds(RemoveAll(t, a), ip, id) <==> Binds(RemoveAll(t, b), ip, id)
  {
    RemoveAllKeepsOtherBindings(t, m, a, ip, id);
    RemoveAllKeepsOtherBindings(t, m, b, ip, id);
  }

  /** So the removals give the same nine tables in any order, repeated or not. */
  lemma RemovalWithoutSharing(t: Tables, m: Nodes, a: seq<string>, b: seq<string>)
    requires Refines(t, m) && forall n :: n in a <==> n in b
    requires forall owner, other :: !SharesOwnedIp(t, m, a, owner, other)
    ensures RemoveAll(t, a) == RemoveAll(t, b)
  {
    BulkRemovalIsOrderIndependent(t, m, a, b);
    var ta, tb := RemoveAll(t, a), RemoveAll(t, b);
    forall ip
      ensures ip in ta.ipToId <==> ip in tb.ipToId
      ensures ip in ta.ipToId ==> ta.ipToId[ip] == tb.ipToId[ip]
    {
      IpsWithoutSharing(t, m, a, b, ip);
    }
    assert ta.ipToId == tb.ipToId;
  }

  /** The copies of `n` in a list, and the rest of it. */
  function Only(ids: seq<string>, n: string): (r: seq<string>)
    ensures forall x :: x in r ==> x == n
    ensures n in ids ==> n in r
  {
    if ids == [] then []
    else if ids[0] == n then [n] + Only(ids[1..], n)
    else Only(ids[1..], n)
  }

  function Without(ids: seq<string>, n: string): (r: seq<string>)
    ensures forall x :: x in r <==> x in ids && x != n
  {
    if ids == [] then []
    else if ids[0] == n then Without(ids[1..], n)
    else
      assert forall x :: x in ids <==> x == ids[0] || x in ids[1..];
      [ids[0]] + Without(ids[1..], n)
  }

  lemma {:induction false} PartsAreWhole(ids: seq<string>, n: string)
    ensures multiset(Only(ids, n)) + multiset(Without(ids, n)) == multiset(ids)
  {
    if ids != [] {
      PartsAreWhole(ids[1..], n);
      assert ids == [ids[0]] + ids[1..];
    }
  }

  lemma LastIsOther(ids: seq<string>, other: string)
    requires other in ids
    ensures var front := Without(ids, other);
            var p := front + Only(ids, other);
            |front| < |p| && p[|front|] == other && other !in p[..|front|] && p[..|front|] == front
  {
    assert Only(ids, other)[0] in Only(ids, other);
  }

  /** Removing the other victim last leaves the ip bound to the empty id. */
  lemma OtherLast(t: Tables, m: Nodes, ids: seq<string>, owner: string, other: string)
    requires Refines(t, m) && SharesOwnedIp(t, m, ids, owner, other)
    ensures BoundToEmpty(RemoveAll(t, Without(ids, other) + Only(ids, other)), m[owner].ip)
  {
    var front := Without(ids, other);
    var p := front + Only(ids, other);
    LastIsOther(ids, other);
    assert owner in front && ("" in ids ==> "" in front);
    assert forall x :: x in p ==> x in ids;
    assert LeavesEmpty(owner, m, p, m[owner].ip, |front|);
    BoundToEmptyIff(t, m, p, m[owner].ip);
  }

  lemma OwnerIsLast(ids: seq<string>, owner: string, j: nat)
    requires var q := Without(ids, owner) + Only(ids, owner); j < |q| && owner in q[..j]
    ensures (Without(ids, owner) + Only(ids, owner))[j] == owner
  {
    var front, back := Without(ids, owner), Only(ids, owner);
    assert j >= |front|;
    assert (front + back)[j] == back[j - |front|] && back[j - |front|] in back;
  }

  /** Removing the owner last does not. */
  lemma OwnerLast(t: Tables, m: Nodes, ids: seq<string>, owner: string, other: string)
    requires Refines(t, m) && SharesOwnedIp(t, m, ids, owner, other)
    ensures !BoundToEmpty(RemoveAll(t, Without(ids, owner) + Only(ids, owner)), m[owner].ip)
  {
    var q := Without(ids, owner) + Only(ids, owner);
    var ip := m[owner].ip;
    assert owner in q;
    BoundToEmptyIff(t, m, q, ip);
    if j: nat :| LeavesEmpty(owner, m, q, ip, j) {
      assert owner in q[..j];
      OwnerIsLast(ids, owner, j);
    }
  }

  lemma EmptyTellsApart(t: Tables, ids: seq<string>, p: seq<string>, q: seq<string>, ip: string)
    requires multiset(p) == multiset(ids) == multiset(q)
    requires BoundToEmpty(RemoveAll(t, p), ip) && !BoundToEmpty(RemoveAll(t, q), ip)
    ensures !OrderIrrelevant(t, ids)
  {
  }

  lemma SharingMatters(t: Tables, m: Nodes, ids: seq<string>, owner: string, other: string)
    requires Refines(t, m) && SharesOwnedIp(t, m, ids, owner, other)
    ensures !OrderIrrelevant(t, ids)
  {
    var p, q := Without(ids, other) + Only(ids, other), Without(ids, owner) + Only(ids, owner);
    assert multiset(p) == multiset(ids) by { PartsAreWhole(ids, other); }
    assert multiset(q) == multiset(ids) by { PartsAreWhole(ids, owner); }
    assert BoundToEmpty(RemoveAll(t, p), m[owner].ip) by { OtherLast(t, m, ids, owner, other); }
    assert !BoundToEmpty(RemoveAll(t, q), m[owner].ip) by { OwnerLast(t, m, ids, owner, other); }
    EmptyTellsApart(t, ids, p, q, m[owner].ip);
  }

  lemma SameElements(a: seq<string>, b: seq<string>)
    requires multiset(a) == multiset(b)
    ensures forall n :: n in a <==> n in b
  {
    assert forall n :: (n in a <==> n in multiset(a)) && (n in b <==> n in multiset(b));
  }

  /** Every order of the removals ends with the same nine tables if and only if no victim
      that is the owner of its ip, or has the empty id at an ip without a named owner,
      shares the ip with another, named victim. */
  lemma OrderIrrelevantIff(t: Tables, m: Nodes, ids: seq<string>)
    requires Refines(t, m)
    ensures OrderIrrelevant(t, ids) <==> forall owner, other :: !SharesOwnedIp(t, m, ids, owner, other)
  {
    if owner, other :| SharesOwnedIp(t, m, ids, owner, other) {
      SharingMatters(t, m, ids, owner, other);
    } else {
      forall p | multiset(p) == multiset(ids) ensures RemoveAll(t, p) == RemoveAll(t, ids) {
        SameElements(p, ids);
        RemovalWithoutSharing(t, m, ids, p);
      }
    }
  }
}
