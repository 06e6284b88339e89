/** Whole runs of the index from empty: refinement of the one map, and which store a
    live node's record comes from. */
module DhtRuns {
  import opened DhtTables
  import opened DhtNodes

  /** The operations that change the index; a clean carries its clock reading. */
  datatype Op = Store(entry: DhtEntry) | Clean(now: int)

  function ApplyTables(t: Tables, op: Op): Tables {
    match op
    case Store(e) => StoreTables(t, e)
    case Clean(now) => CleanTables(t, now)
  }

  function ApplyNodes(m: Nodes, op: Op): Nodes {
    match op
    case Store(e) => StoreNode(m, e)
    case Clean(now) => CleanNodes(m, now)
  }

  function RunTables(ops: seq<Op>): Tables {
    if ops == [] then EMPTY_TABLES
    else ApplyTables(RunTables(ops[..|ops| - 1]), ops[|ops| - 1])
  }

  function RunNodes(ops: seq<Op>): Nodes {
    if ops == [] then map[]
    else ApplyNodes(RunNodes(ops[..|ops| - 1]), ops[|ops| - 1])
  }

  lemma ApplyRefines(t: Tables, m: Nodes, op: Op)
    requires Refines(t, m)
    ensures Refines(ApplyTables(t, op), ApplyNodes(m, op))
  {
    match op
    case Store(e) => StoreRefines(t, m, e);
    case Clean(now) => CleanRefines(t, m, now);
  }

  /** In every reachable state the nine tables agree with the one map. */
  lemma {:induction false} RunRefines(ops: seq<Op>)
    ensures Refines(RunTables(ops), RunNodes(ops))
  {
    if ops == [] {
      EmptyRefines();
    } else {
      var init := ops[..|ops| - 1];
      RunRefines(init);
      ApplyRefines(RunTables(init), RunNodes(init), ops[|ops| - 1]);
    }
  }

  lemma RunOneMore(ops: seq<Op>, op: Op)
    ensures RunTables(ops + [op]) == ApplyTables(RunTables(ops), op)
    ensures RunNodes(ops + [op]) == ApplyNodes(RunNodes(ops), op)
  {
    assert (ops + [op])[..|ops|] == ops;
  }

  // ---- last writer wins -----------------------------------------------------------

  predicate Stores(op: Op, n: string) {
    op.Store? && op.entry.nodeId == n
  }

  /** How many operations had run when a clean last removed `n` (0 if none did). */
  function LastRemoval(ops: seq<Op>, n: string): (k: nat)
    ensures k <= |ops|
  {
    if ops == [] then 0
    else
      var init := ops[..|ops| - 1];
      if ops[|ops| - 1].Clean? && n in RunNodes(init) && n !in RunNodes(ops) then |ops|
      else LastRemoval(init, n)
  }

  /** Among the stores of `n` from index `from` on, number `k` has the greatest
      generation and arrived first with it. */
  ghost predicate Wins(ops: seq<Op>, n: string, from: nat, k: nat) {
    && from <= k < |ops| && Stores(ops[k], n)
    && forall j: nat | from <= j < |ops| && Stores(ops[j], n) ::
         && ops[j].entry.generation <= ops[k].entry.generation
         && (j < k ==> ops[j].entry.generation < ops[k].entry.generation)
  }

  /** The winning store of a live node, found by following the run. */
  lemma {:induction false} Winner(ops: seq<Op>, n: string) returns (k: nat)
    ensures n in RunNodes(ops) ==>
              Wins(ops, n, LastRemoval(ops, n), k) && RunNodes(ops)[n] == RecordOf(ops[k].entry)
    ensures n !in RunNodes(ops) ==> forall j: nat | LastRemoval(ops, n) <= j < |ops| :: !Stores(ops[j], n)
  {
    k := 0;
    if ops != [] {
      var init, op := ops[..|ops| - 1], ops[|ops| - 1];
      assert forall j | 0 <= j < |init| :: ops[j] == init[j];
      k := Winner(init, n);
      if Stores(op, n) && Accepts(RunNodes(init), op.entry) {
        k := |init|;
      }
    }
  }

  /** A node is live exactly if it was stored since a clean last removed it, and then
      its record is that of the winning store. */
  lemma LastWriterWins(ops: seq<Op>, n: string)
    ensures n in RunNodes(ops) <==>
            exists k: nat :: LastRemoval(ops, n) <= k < |ops| && Stores(ops[k], n)
    ensures n in RunNodes(ops) ==> exists k: nat :: Wins(ops, n, LastRemoval(ops, n), k)
    ensures forall k: nat :: Wins(ops, n, LastRemoval(ops, n), k) ==>
              n in RunNodes(ops) && RunNodes(ops)[n] == RecordOf(ops[k].entry)
  {
    var w := Winner(ops, n);
    forall k: nat | Wins(ops, n, LastRemoval(ops, n), k)
      ensures n in RunNodes(ops) && RunNodes(ops)[n] == RecordOf(ops[k].entry)
    {
      assert n in RunNodes(ops);
      assert k == w;
    }
  }

  /** While a node stays live its generation never decreases. */
  lemma GenerationNeverDecreases(ops: seq<Op>, i: nat, n: string)
    requires i <= |ops| && n in RunNodes(ops[..i]) && LastRemoval(ops, n) <= i
    ensures n in RunNodes(ops)
    ensures RunNodes(ops[..i])[n].generation <= RunNodes(ops)[n].generation
  {
    if i == |ops| {
      assert ops[..i] == ops;
    } else {
      var init := ops[..|ops| - 1];
      assert init[..i] == ops[..i];
      GenerationNeverDecreases(init, i, n);
    }
  }
}
