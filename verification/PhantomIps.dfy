/** Exactly when a run leaves an ip bound to the empty id: the history of claims and
    departures at the ip, one elementary step after another. Node ids may be empty. */
module PhantomIps {
  import opened Wrappers
  import opened ExpiryIndex
  import opened DhtTables
  import opened DhtNodes
  import opened DhtRuns
  import opened RemovalOrder

  /** A node is recorded at an ip, or its record at an ip is removed. */
  datatype Step = Claim(id: string, ip: string) | Departure(id: string, ip: string)

  /** The departures when `ids` are removed in turn. */
  function Departures(m: Nodes, ids: seq<string>): seq<Step>
    decreases |ids|
  {
    if ids == [] then []
    else (if ids[0] in m then [Departure(ids[0], m[ids[0]].ip)] else []) + Departures(m - {ids[0]}, ids[1..])
  }

  /** The steps of one operation. A clean removes its victims in the order of their expiry. */
  function StepsOf(t: Tables, m: Nodes, op: Op): seq<Step> {
    match op
    case Store(e) =>
      if Accepts(m, e) then Departures(m, [e.nodeId]) + [Claim(e.nodeId, e.nodeIp)] else []
    case Clean(now) => Departures(m, Expired(t.expiryIndex, now))
  }

  function Steps(ops: seq<Op>): seq<Step> {
    if ops == [] then []
    else
      var init := ops[..|ops| - 1];
      Steps(init) + StepsOf(RunTables(init), RunNodes(init), ops[|ops| - 1])
  }

  // ---- the binding of one ip ------------------------------------------------------------

  function Binding(t: Tables, ip: string): Option<string> {
    if ip in t.ipToId then Some(t.ipToId[ip]) else None
  }

  function AfterStep(b: Option<string>, s: Step, ip: string): Option<string> {
    if s.ip != ip then b
    else if s.Claim? then Some(s.id)
    else
      var owner := if b.None? then "" else b.value;
      if owner == s.id then None else Some(owner)
  }

  function AfterSteps(b: Option<string>, steps: seq<Step>, ip: string): Option<string> {
    if steps == [] then b else AfterStep(AfterSteps(b, steps[..|steps| - 1], ip), steps[|steps| - 1], ip)
  }

  lemma {:induction false} StepsJoin(b: Option<string>, s: seq<Step>, s': seq<Step>, ip: string)
    ensures AfterSteps(b, s + s', ip) == AfterSteps(AfterSteps(b, s, ip), s', ip)
    decreases |s'|
  {
    if s' == [] {
      assert s + s' == s;
    } else {
      assert (s + s')[..|s + s'| - 1] == s + s'[..|s'| - 1];
      StepsJoin(b, s, s'[..|s'| - 1], ip);
    }
  }

  lemma OneStep(b: Option<string>, s: Step, ip: string)
    ensures AfterSteps(b, [s], ip) == AfterStep(b, s, ip)
  {
    assert [s][..0] == [];
  }

  lemma RemovalIsDeparture(t: Tables, m: Nodes, n: string, ip: string)
    requires Refines(t, m)
    ensures Binding(RemoveTables(t, n), ip) ==
            if n in m then AfterStep(Binding(t, ip), Departure(n, m[n].ip), ip) else Binding(t, ip)
  {
    RemovalBinding(t, m, n, ip);
  }

  lemma {:induction false} RemovalsAreDepartures(t: Tables, m: Nodes, ids: seq<string>, ip: string)
    requires Refines(t, m)
    ensures Binding(RemoveAll(t, ids), ip) == AfterSteps(Binding(t, ip), Departures(m, ids), ip)
    decreases |ids|
  {
    if ids != [] {
      var n := ids[0];
      var first := if n in m then [Departure(n, m[n].ip)] else [];
      RemovalIsDeparture(t, m, n, ip);
      if n in m { OneStep(Binding(t, ip), Departure(n, m[n].ip), ip); }
      RemoveRefines(t, m, n);
      RemovalsAreDepartures(RemoveTables(t, n), m - {n}, ids[1..], ip);
      StepsJoin(Binding(t, ip), first, Departures(m - {n}, ids[1..]), ip);
    }
  }

  lemma StoreIsSteps(t: Tables, m: Nodes, e: DhtEntry, ip: string)
    requires Refines(t, m)
    ensures Binding(StoreTables(t, e), ip) == AfterSteps(Binding(t, ip), StepsOf(t, m, Store(e)), ip)
  {
    assert e.nodeId in m <==> e.nodeId in t.idToGeneration;
    if Accepts(m, e) {
      RemovalsAreDepartures(t, m, [e.nodeId], ip);
      SingleRemoval(t, e.nodeId);
      StepsJoin(Binding(t, ip), Departures(m, [e.nodeId]), [Claim(e.nodeId, e.nodeIp)], ip);
      OneStep(Binding(RemoveTables(t, e.nodeId), ip), Claim(e.nodeId, e.nodeIp), ip);
    }
  }

  lemma SingleRemoval(t: Tables, n: string)
    ensures RemoveAll(t, [n]) == RemoveTables(t, n)
  {
    assert [n][1..] == [];
  }

  /** The steps of a run decide every binding of the ip table. */
  lemma {:induction false} RunBinding(ops: seq<Op>, ip: string)
    ensures Binding(RunTables(ops), ip) == AfterSteps(None, Steps(ops), ip)
  {
    if ops != [] {
      var init, op := ops[..|ops| - 1], ops[|ops| - 1];
      var t, m := RunTables(init), RunNodes(init);
      RunBinding(init, ip);
      RunRefines(init);
      StepsJoin(None, Steps(init), StepsOf(t, m, op), ip);
      match op
      case Store(e) => StoreIsSteps(t, m, e, ip);
      case Clean(now) => RemovalsAreDepartures(t, m, Expired(t.expiryIndex, now), ip);
    }
  }

  // ---- reading the history ----------------------------------------------------------------

  /** Step `k` takes the node `x` from the ip, and the later step `j` takes a named node
      that was still recorded there; the empty id does not leave the ip after that. */
  ghost predicate LeftEmpty(x: string, steps: seq<Step>, ip: string, k: nat, j: nat) {
    && k < j < |steps| && steps[k] == Departure(x, ip)
    && steps[j].Departure? && steps[j].ip == ip && steps[j].id != ""
    && forall r | j < r < |steps| :: steps[r] != Departure("", ip)
  }

  /** The ip ends bound to the empty id, if it starts bound to `x` and is not claimed. */
  ghost predicate EndsEmpty(x: string, steps: seq<Step>, ip: string) {
    || (x == "" && Departure("", ip) !in steps)
    || exists k: nat, j: nat :: LeftEmpty(x, steps, ip, k, j)
  }

  predicate NotClaimed(steps: seq<Step>, ip: string) {
    forall s | s in steps && s.ip == ip :: s.Departure?
  }

  /** The ip ends bound to a named node. */
  predicate EndsNamed(x: string, steps: seq<Step>, ip: string) {
    x != "" && Departure(x, ip) !in steps
  }

  /** What the binding of an ip tells of its history since it was claimed by `x`. */
  predicate Tells(b: Option<string>, named: bool, empty: bool, x: string) {
    && (b.Some? && b.value != "" <==> named)
    && (named ==> b == Some(x))
    && (b == Some("") <==> empty)
  }

  lemma {:induction false} TailBinding(x: string, steps: seq<Step>, ip: string)
    requires NotClaimed(steps, ip)
    ensures Tells(AfterSteps(Some(x), steps, ip), EndsNamed(x, steps, ip), EndsEmpty(x, steps, ip), x)
  {
    if steps != [] {
      var init, s := steps[..|steps| - 1], steps[|steps| - 1];
      assert steps == init + [s];
      assert s in steps && NotClaimed(init, ip);
      TailBinding(x, init, ip);
      NamedStep(x, init, s, ip);
      EmptyStep(x, init, s, ip);
    }
  }

  lemma NamedStep(x: string, init: seq<Step>, s: Step, ip: string)
    ensures EndsNamed(x, init + [s], ip) <==> EndsNamed(x, init, ip) && s != Departure(x, ip)
  {
    assert forall t :: t in init + [s] <==> t in init || t == s;
  }

  lemma EmptyStep(x: string, init: seq<Step>, s: Step, ip: string)
    requires s.ip == ip ==> s.Departure?
    ensures EndsEmpty(x, init + [s], ip) <==>
            if s.ip != ip then EndsEmpty(x, init, ip)
            else s.id != "" && (EndsEmpty(x, init, ip) || Departure(x, ip) in init)
  {
    var steps := init + [s];
    assert forall t :: t in steps <==> t in init || t == s;
    assert steps[|init|] == s && forall r | 0 <= r < |init| :: init[r] == steps[r];
    if k: nat, j: nat :| LeftEmpty(x, steps, ip, k, j) {
      assert steps[k] in init;
      assert j < |init| ==> LeftEmpty(x, init, ip, k, j);
    }
    if s.ip != ip || s.id != "" {
      if k: nat, j: nat :| LeftEmpty(x, init, ip, k, j) {
        assert LeftEmpty(x, steps, ip, k, j);
      }
      if s.ip == ip && Departure(x, ip) in init {
        var k :| 0 <= k < |init| && init[k] == Departure(x, ip);
        assert LeftEmpty(x, steps, ip, k, |init|);
      }
    }
  }

  /** Step `i` is the last claim of `ip`. */
  ghost predicate LastClaim(steps: seq<Step>, ip: string, i: nat) {
    i < |steps| && steps[i].Claim? && steps[i].ip == ip && NotClaimed(steps[i + 1..], ip)
  }

  /** A node departs only from an ip that was claimed. */
  ghost predicate Grounded(steps: seq<Step>, ip: string) {
    forall j | 0 <= j < |steps| && steps[j].Departure? && steps[j].ip == ip ::
      exists i :: 0 <= i < j && steps[i].Claim? && steps[i].ip == ip
  }

  lemma {:induction false} FindLastClaim(steps: seq<Step>, ip: string) returns (i: nat)
    ensures LastClaim(steps, ip, i) || NotClaimed(steps, ip)
  {
    i := 0;
    if steps != [] {
      var init, s := steps[..|steps| - 1], steps[|steps| - 1];
      assert steps == init + [s];
      if s.ip == ip && s.Claim? {
        i := |init|;
      } else {
        i := FindLastClaim(init, ip);
        if LastClaim(init, ip, i) { assert steps[i + 1..] == init[i + 1..] + [s]; }
      }
    }
  }

  lemma {:induction false} Untouched(b: Option<string>, steps: seq<Step>, ip: string)
    requires forall s | s in steps :: s.ip != ip
    ensures AfterSteps(b, steps, ip) == b
  {
    if steps != [] {
      assert steps[|steps| - 1] in steps;
      Untouched(b, steps[..|steps| - 1], ip);
    }
  }

  lemma SinceLastClaim(b: Option<string>, steps: seq<Step>, ip: string, i: nat)
    requires LastClaim(steps, ip, i)
    ensures AfterSteps(b, steps, ip) == AfterSteps(Some(steps[i].id), steps[i + 1..], ip)
  {
    var claim := [steps[i]];
    assert steps == steps[..i] + (claim + steps[i + 1..]);
    StepsJoin(b, steps[..i], claim + steps[i + 1..], ip);
    StepsJoin(AfterSteps(b, steps[..i], ip), claim, steps[i + 1..], ip);
    OneStep(AfterSteps(b, steps[..i], ip), steps[i], ip);
  }

  lemma LastClaimIsUnique(steps: seq<Step>, ip: string, i: nat, j: nat)
    requires LastClaim(steps, ip, i) && LastClaim(steps, ip, j)
    ensures i == j
  {
  }

  // ---- the theorem --------------------------------------------------------------------------

  lemma {:induction false} DeparturesAreRecorded(m: Nodes, ids: seq<string>)
    ensures forall s | s in Departures(m, ids) :: s.Departure? && s.id in m && m[s.id].ip == s.ip
    decreases |ids|
  {
    if ids != [] {
      DeparturesAreRecorded(m - {ids[0]}, ids[1..]);
    }
  }

  /** Every live node was claimed where it is recorded. */
  ghost predicate NodesClaimed(steps: seq<Step>, m: Nodes) {
    forall n | n in m :: Claim(n, m[n].ip) in steps
  }

  lemma {:induction false} RunIsGrounded(ops: seq<Op>, ip: string)
    ensures Grounded(Steps(ops), ip) && NodesClaimed(Steps(ops), RunNodes(ops))
  {
    if ops != [] {
      var init, op := ops[..|ops| - 1], ops[|ops| - 1];
      var t, m := RunTables(init), RunNodes(init);
      RunIsGrounded(init, ip);
      match op
      case Store(e) =>
        DeparturesAreRecorded(m, [e.nodeId]);
        GroundedJoin(Steps(init), m, StepsOf(t, m, op), ip);
      case Clean(now) =>
        DeparturesAreRecorded(m, Expired(t.expiryIndex, now));
        GroundedJoin(Steps(init), m, StepsOf(t, m, op), ip);
    }
  }

  lemma GroundedJoin(steps: seq<Step>, m: Nodes, more: seq<Step>, ip: string)
    requires Grounded(steps, ip) && NodesClaimed(steps, m)
    requires forall s | s in more && s.Departure? :: s.id in m && m[s.id].ip == s.ip
    ensures Grounded(steps + more, ip)
  {
    var all := steps + more;
    forall j | 0 <= j < |all| && all[j].Departure? && all[j].ip == ip
      ensures exists i :: 0 <= i < j && all[i].Claim? && all[i].ip == ip
    {
      if j < |steps| {
        var i :| 0 <= i < j && steps[i].Claim? && steps[i].ip == ip;
        assert all[i] == steps[i];
      } else {
        assert all[j] in more;
        var i :| 0 <= i < |steps| && steps[i] == Claim(all[j].id, ip);
        assert all[i] == steps[i];
      }
    }
  }

  lemma NeverClaimed(steps: seq<Step>, ip: string)
    requires Grounded(steps, ip) && NotClaimed(steps, ip)
    ensures forall s | s in steps :: s.ip != ip
    ensures forall i: nat :: !LastClaim(steps, ip, i)
  {
    assert forall i | 0 <= i < |steps| :: steps[i] in steps;
  }

  /** Step `i` is the last claim of `ip`, which has ended bound to the empty id since. */
  ghost predicate EmptySince(steps: seq<Step>, ip: string, i: nat) {
    LastClaim(steps, ip, i) && EndsEmpty(steps[i].id, steps[i + 1..], ip)
  }

  lemma SinceClaimIff(steps: seq<Step>, ip: string, i: nat)
    requires LastClaim(steps, ip, i)
    ensures AfterSteps(None, steps, ip) == Some("") <==> EmptySince(steps, ip, i)
  {
    SinceLastClaim(None, steps, ip, i);
    TailBinding(steps[i].id, steps[i + 1..], ip);
  }

  lemma HistoryEndsEmptyIff(steps: seq<Step>, ip: string)
    requires Grounded(steps, ip)
    ensures AfterSteps(None, steps, ip) == Some("") <==> exists i: nat :: EmptySince(steps, ip, i)
  {
    var i := FindLastClaim(steps, ip);
    if LastClaim(steps, ip, i) {
      SinceClaimIff(steps, ip, i);
      if j: nat :| EmptySince(steps, ip, j) { LastClaimIsUnique(steps, ip, i, j); }
    } else {
      NeverClaimed(steps, ip);
      Untouched(None, steps, ip);
    }
  }

  /** After a run an ip is bound to the empty id if and only if, since the last claim of
      the ip, its claimant has the empty id and has not left, or its claimant has left and
      afterwards a named node still recorded there was removed, and then no empty id. */
  lemma RunEndsEmptyIff(ops: seq<Op>, ip: string)
    ensures BoundToEmpty(RunTables(ops), ip) <==>
            exists i: nat :: EmptySince(Steps(ops), ip, i)
  {
    RunBinding(ops, ip);
    RunIsGrounded(ops, ip);
    HistoryEndsEmptyIff(Steps(ops), ip);
  }
}
