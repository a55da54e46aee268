// CREATE INDEX: the rows of a table put into a tree, under the ints of one column.
module Indexing {
  import opened Sequences
  import opened Bytes
  import opened Results
  import opened PoolModel
  import opened RowModel
  import opened HeapModel
  import opened TableModel
  import opened StatementModel
  import opened Heap
  import opened TreeFit
  import opened Statements
  import NodeCodec
  import TreeModel
  import TreeTheorems
  import BTree

  type Op = TreeTheorems.Op

  predicate HasInt(values: seq<Value>, k: nat) {
    k < |values| && values[k].IntValue?
  }

  /** The insertions into the index: the printed row under its int in column k; rows without one are left out. */
  function IndexOps(rows: seq<Row>, k: nat, show: seq<Value> -> seq<Byte>): seq<Op> {
    if rows == [] then []
    else
      var front, values := IndexOps(rows[..|rows| - 1], k, show), rows[|rows| - 1].values;
      if HasInt(values, k) then front + [(values[k].n, show(values))] else front
  }

  /** Put these rows into a new tree; a panic ends it. */
  method FillIndex(rows: seq<Row>, k: nat, show: seq<Value> -> seq<Byte>, disk: BTree.DiskManager)
    returns (index: BTree.BTree, ok: bool)
    requires Int64Keys(IndexOps(rows, k, show)) && Room(IndexOps(rows, k, show), disk.pageCount)
    modifies disk
    ensures fresh(index) && index.Disk == disk
    ensures ok <==> RunSaves(IndexOps(rows, k, show), old(disk.pageCount))
    ensures ok ==> index.Valid() && index.AllCached() && fresh(index.nodePool.Values)
    ensures ok ==> (index.tree, disk.pageCount) == TreeTheorems.Run(IndexOps(rows, k, show), old(disk.pageCount))
    ensures SmallOps(IndexOps(rows, k, show)) ==> ok && index.Coherent()
  {
    hide RunSaves, LeafSaves, TreeTheorems.Sound, TreeTheorems.Run, TreeModel.InsertRoot, IndexOps;
    hide BTree.BTree.Valid, BTree.BTree.AllCached, BTree.BTree.Contents, BTree.BTree.Map, BTree.BTree.Coherent;
    hide TreeTheorems.MapOf, TreeTheorems.ShadowsOf;
    ghost var first, ops, n := disk.pageCount, IndexOps(rows, k, show), 0;
    index := new BTree.BTree(disk);
    BTree.RunStarts(first);
    NoOps(rows, k, show);
    for i := 0 to |rows|
      invariant index.Valid() && index.AllCached() && fresh(index.nodePool.Values)
      invariant n == |IndexOps(rows[..i], k, show)| <= |ops|
      invariant (index.tree, disk.pageCount) == TreeTheorems.Run(ops[..n], first) && RunSaves(ops[..n], first)
    {
      NextOp(rows, i, k, show);
      if HasInt(rows[i].values, k) {
        BTree.RunGoesOn(ops, n, first);
        ghost var pool := index.nodePool;
        ok := index.Insert(rows[i].values[k].n, show(rows[i].values));
        if !ok {
          BTree.StopsSaving(ops, n + 1, first);
          BTree.SmallSaves(ops, first);
          return;
        }
        forall o | o in index.nodePool.Values ensures fresh(o) {
          var q :| q in index.nodePool && index.nodePool[q] == o;
          assert q in pool && pool[q] == o ==> o in pool.Values;
        }
        n := n + 1;
      }
    }
    ok := true;
    assert rows[..|rows|] == rows && ops[..|ops|] == ops;
    index.CoherentIffFits();
    BTree.SmallSaves(ops, first);
  }

  /**
   CREATE INDEX on an int column: the printed rows that a scan sees, inserted in RID order. It fails, in a panic,
   exactly if one of the insertions does, and never on rows that print to 10 bytes or less.
   */
  method CreateIndex(table: HeapFile, k: nat, show: seq<Value> -> seq<Byte>, disk: BTree.DiskManager)
    returns (index: BTree.BTree, ok: bool)
    requires table.Valid() && k < |table.Schema| && table.Schema[k] == TypeInt && disk.pageCount > 0
    requires forall rows :: IsListing(rows, Seen(table.State(), table.tableID, table.Schema)) ==>
               Room(IndexOps(rows, k, show), disk.pageCount)
    modifies disk, table.BufferPool, table.BufferPool.frames, table.BufferPool.disk, table.BufferPool.Pages()
    ensures table.Valid() && fresh(table.BufferPool.Pages() - old(table.BufferPool.Pages()))
    ensures Unseen(old(table.State()), table.State())
    ensures fresh(index) && index.Disk == disk
    ensures forall rows :: IsListing(rows, old(Seen(table.State(), table.tableID, table.Schema))) ==>
              && (ok <==> RunSaves(IndexOps(rows, k, show), old(disk.pageCount)))
              && (ok ==> (index.tree, disk.pageCount) == TreeTheorems.Run(IndexOps(rows, k, show), old(disk.pageCount)))
    ensures ok ==> index.Valid() && index.AllCached()
    ensures PrintsShort(old(Seen(table.State(), table.tableID, table.Schema)), show) ==> ok && index.Coherent()
  {
    hide PoolOk, HeapOk, PinsKept, Carries, NoHigher, Seen, IsListing, RunSaves, Room, IndexOps, TreeTheorems.Run;
    hide TreeTheorems.Sound, BTree.BTree.Valid, BTree.BTree.AllCached, BTree.BTree.Coherent, PrintsShort, SmallOps;
    ghost var p, seen := table.State(), Seen(table.State(), table.tableID, table.Schema);
    var rows := table.ScanFull();
    OpsAreInts(p, table.tableID, table.Schema, rows, k, show);
    OneIndex(seen, rows);
    ShortOps(seen, rows, k, show);
    label Scanned:
    index, ok := FillIndex(rows, k, show, disk);
    table.BufferPool.Unmoved@Scanned();
  }

  lemma NoOps(rows: seq<Row>, k: nat, show: seq<Value> -> seq<Byte>)
    ensures IndexOps(rows[..0], k, show) == []
  {
  }

  lemma {:induction false} OpsOfFront(rows: seq<Row>, i: nat, k: nat, show: seq<Value> -> seq<Byte>)
    requires i <= |rows|
    ensures IndexOps(rows[..i], k, show) <= IndexOps(rows, k, show)
    decreases |rows|
  {
    if i < |rows| {
      assert rows[..|rows| - 1][..i] == rows[..i];
      OpsOfFront(rows[..|rows| - 1], i, k, show);
    } else {
      assert rows[..i] == rows;
    }
  }

  lemma NextOp(rows: seq<Row>, i: nat, k: nat, show: seq<Value> -> seq<Byte>)
    requires i < |rows|
    ensures var ops, n, values := IndexOps(rows, k, show), |IndexOps(rows[..i], k, show)|, rows[i].values;
            && |IndexOps(rows[..i + 1], k, show)| == (if HasInt(values, k) then n + 1 else n) <= |ops|
            && (HasInt(values, k) ==> ops[n] == (values[k].n, show(values)))
  {
    assert rows[..i + 1][..i] == rows[..i];
    OpsOfFront(rows, i + 1, k, show);
  }

  /** Each insertion comes from a row, and each row with an int gives one. */
  lemma {:induction false} OpsAre(rows: seq<Row>, k: nat, show: seq<Value> -> seq<Byte>, op: Op)
    ensures op in IndexOps(rows, k, show) <==>
            exists i :: 0 <= i < |rows| && HasInt(rows[i].values, k) &&
              op == (rows[i].values[k].n, show(rows[i].values))
  {
    if rows != [] {
      var front, last := rows[..|rows| - 1], rows[|rows| - 1];
      OpsAre(front, k, show, op);
      if op in IndexOps(front, k, show) {
        var i :| 0 <= i < |front| && HasInt(front[i].values, k) && op == (front[i].values[k].n, show(front[i].values));
        assert rows[i] == front[i];
      }
      forall i | 0 <= i < |rows| && HasInt(rows[i].values, k) && op == (rows[i].values[k].n, show(rows[i].values))
        ensures op in IndexOps(rows, k, show)
      {
        assert i < |front| ==> front[i] == rows[i];
      }
    }
  }

  lemma OpsAreInts(p: Pool, t: nat, schema: Schema, rows: seq<Row>, k: nat, show: seq<Value> -> seq<Byte>)
    requires HeapOk(p) && IsListing(rows, Seen(p, t, schema)) && k < |schema| && schema[k] == TypeInt
    ensures Int64Keys(IndexOps(rows, k, show))
  {
    hide HeapOk, Table, Typed, IndexOps;
    var ops := IndexOps(rows, k, show);
    AllTyped(p, t, schema);
    forall i | 0 <= i < |ops| ensures NodeCodec.IsInt64(ops[i].0) {
      OpsAre(rows, k, show, ops[i]);
      var j :| 0 <= j < |rows| && HasInt(rows[j].values, k) && ops[i] == (rows[j].values[k].n, show(rows[j].values));
      IntInRange(rows[j].values, schema, k);
    }
  }

  lemma IntInRange(values: seq<Value>, schema: Schema, k: nat)
    requires Typed(values, schema) && HasInt(values, k) && schema[k] == TypeInt
    ensures NodeCodec.IsInt64(values[k].n)
  {
  }

  lemma OneIndex(t: Contents, rows: seq<Row>)
    requires IsListing(rows, t)
    ensures forall other :: IsListing(other, t) ==> other == rows
  {
    hide IsListing;
    forall other | IsListing(other, t) ensures other == rows {
      ListingIsUnique(other, rows, t);
    }
  }

  ghost predicate PrintsShort(t: Contents, show: seq<Value> -> seq<Byte>) {
    forall rid :: rid in t ==> |show(t[rid])| <= 10
  }

  lemma ShortOps(t: Contents, rows: seq<Row>, k: nat, show: seq<Value> -> seq<Byte>)
    requires IsListing(rows, t)
    ensures PrintsShort(t, show) ==> SmallOps(IndexOps(rows, k, show))
  {
    var ops := IndexOps(rows, k, show);
    forall i | 0 <= i < |ops| && PrintsShort(t, show) ensures |ops[i].1| <= 10 {
      OpsAre(rows, k, show, ops[i]);
    }
  }

  /** The rows with an int in column k stand at these places, in row order, and each gives one insertion. */
  ghost predicate GivenAt(rows: seq<Row>, k: nat, show: seq<Value> -> seq<Byte>, ops: seq<Op>, at: seq<nat>) {
    && |at| == |ops| && (forall i, j :: 0 <= i < j < |at| ==> at[i] < at[j])
    && (forall j :: 0 <= j < |at| ==>
          at[j] < |rows| && k < |rows[at[j]].values| && rows[at[j]].values[k] == IntValue(ops[j].0) &&
          ops[j].1 == show(rows[at[j]].values))
    && forall i :: 0 <= i < |rows| && k < |rows[i].values| && rows[i].values[k].IntValue? ==> i in at
  }

  /** The insertions are those of the rows with an int, in row order. */
  lemma {:induction false} OpsInRowOrder(rows: seq<Row>, k: nat, show: seq<Value> -> seq<Byte>)
    ensures exists at: seq<nat> :: GivenAt(rows, k, show, IndexOps(rows, k, show), at)
  {
    hide GivenAt;
    if rows == [] {
      NoneGiven(k, show);
      assert GivenAt(rows, k, show, IndexOps(rows, k, show), []);
    } else {
      var front, n: nat := rows[..|rows| - 1], |rows| - 1;
      OpsInRowOrder(front, k, show);
      var at: seq<nat> :| GivenAt(front, k, show, IndexOps(front, k, show), at);
      GivenOneMore(rows, k, show, IndexOps(front, k, show), at);
      var at' := if HasInt(rows[n].values, k) then at + [n] else at;
      assert GivenAt(rows, k, show, IndexOps(rows, k, show), at');
    }
  }

  lemma NoneGiven(k: nat, show: seq<Value> -> seq<Byte>)
    ensures GivenAt([], k, show, [], [])
  {
  }

  lemma GivenOneMore(rows: seq<Row>, k: nat, show: seq<Value> -> seq<Byte>, ops: seq<Op>, at: seq<nat>)
    requires rows != [] && GivenAt(rows[..|rows| - 1], k, show, ops, at)
    ensures var n, values := |rows| - 1, rows[|rows| - 1].values;
            if k < |values| && values[k].IntValue?
            then GivenAt(rows, k, show, ops + [(values[k].n, show(values))], at + [n])
            else GivenAt(rows, k, show, ops, at)
  {
    var n: nat, values := |rows| - 1, rows[|rows| - 1].values;
    GivenBefore(rows, k, show, ops, at);
    if k < |values| && values[k].IntValue? {
      GivenLast(rows, k, show, ops, at);
    }
  }

  /** So far as they stand before the last row. */
  ghost predicate GivenBut(rows: seq<Row>, k: nat, show: seq<Value> -> seq<Byte>, ops: seq<Op>, at: seq<nat>) {
    && |at| == |ops| && (forall i, j :: 0 <= i < j < |at| ==> at[i] < at[j])
    && (forall j :: 0 <= j < |at| ==>
          at[j] < |rows| - 1 && k < |rows[at[j]].values| && rows[at[j]].values[k] == IntValue(ops[j].0) &&
          ops[j].1 == show(rows[at[j]].values))
    && forall i :: 0 <= i < |rows| - 1 && k < |rows[i].values| && rows[i].values[k].IntValue? ==> i in at
  }

  lemma GivenBefore(rows: seq<Row>, k: nat, show: seq<Value> -> seq<Byte>, ops: seq<Op>, at: seq<nat>)
    requires rows != [] && GivenAt(rows[..|rows| - 1], k, show, ops, at)
    ensures GivenBut(rows, k, show, ops, at)
  {
    var front := rows[..|rows| - 1];
    forall i | 0 <= i < |rows| - 1 ensures rows[i] == front[i] {
    }
  }

  lemma GivenLast(rows: seq<Row>, k: nat, show: seq<Value> -> seq<Byte>, ops: seq<Op>, at: seq<nat>)
    requires rows != [] && GivenBut(rows, k, show, ops, at)
    requires k < |rows[|rows| - 1].values| && rows[|rows| - 1].values[k].IntValue?
    ensures var n, values := |rows| - 1, rows[|rows| - 1].values;
            GivenAt(rows, k, show, ops + [(values[k].n, show(values))], at + [n])
  {
    var n: nat := |rows| - 1;
    assert n in at + [n];
    assert forall i :: i in at ==> i in at + [n];
  }

  // ----- what an index finds -----

  /** The row has the int n in column k. */
  ghost predicate Keyed(t: Contents, rid: RID, k: nat, n: int) {
    rid in t && k < |t[rid]| && t[rid][k] == IntValue(n)
  }

  ghost predicate AnyKeyed(t: Contents, k: nat, n: int) {
    exists rid :: Keyed(t, rid, k, n)
  }

  lemma OpsOfTable(t: Contents, rows: seq<Row>, k: nat, show: seq<Value> -> seq<Byte>, n: int)
    requires IsListing(rows, t)
    ensures var ops := IndexOps(rows, k, show);
            && (forall v: seq<Byte> :: (n, v) in ops ==> exists rid :: Keyed(t, rid, k, n) && v == show(t[rid]))
            && (forall rid :: Keyed(t, rid, k, n) ==> (n, show(t[rid])) in ops)
  {
    hide IndexOps;
    forall v: seq<Byte> | (n, v) in IndexOps(rows, k, show)
      ensures exists rid :: Keyed(t, rid, k, n) && v == show(t[rid])
    {
      OpsAre(rows, k, show, (n, v));
      var i :| 0 <= i < |rows| && HasInt(rows[i].values, k) && (n, v) == (rows[i].values[k].n, show(rows[i].values));
      assert Keyed(t, rows[i].rid, k, n);
    }
    forall rid | Keyed(t, rid, k, n) ensures (n, show(t[rid])) in IndexOps(rows, k, show) {
      assert Listed(rows, rid);
      var i :| 0 <= i < |rows| && rows[i].rid == rid;
      OpsAre(rows, k, show, (n, show(t[rid])));
    }
  }

  /** A search for an int finds some row that has it, exactly if there is one. */
  lemma IndexFindsARow(t: Contents, rows: seq<Row>, k: nat, show: seq<Value> -> seq<Byte>, first: nat, n: int)
    requires IsListing(rows, t) && first != 0
    ensures var m := TreeTheorems.MapOf(TreeTheorems.Run(IndexOps(rows, k, show), first).0);
            && (n in m <==> AnyKeyed(t, k, n))
            && (n in m ==> exists rid :: Keyed(t, rid, k, n) && m[n] == show(t[rid]))
  {
    hide IndexOps, IsListing, TreeTheorems.Run, TreeTheorems.MapOf, TreeTheorems.Sound;
    var ops := IndexOps(rows, k, show);
    OpsOfTable(t, rows, k, show, n);
    FoundWasInserted(ops, first, n);
    TreeTheorems.RunKeepsKeys(ops, first);
    TreeTheorems.ReplayKeys(ops, n);
    forall rid | Keyed(t, rid, k, n) ensures n in TreeTheorems.Replay(ops) {
      var i :| 0 <= i < |ops| && ops[i] == (n, show(t[rid]));
    }
  }

  /** Whatever a search finds was inserted under that key. */
  lemma {:induction false} FoundWasInserted(ops: seq<Op>, first: nat, n: int)
    requires first != 0
    ensures var m := TreeTheorems.MapOf(TreeTheorems.Run(ops, first).0); n in m ==> (n, m[n]) in ops
  {
    hide TreeTheorems.Sound, TreeTheorems.MapOf, TreeTheorems.ShadowsOf, TreeModel.InsertRoot;
    if ops == [] {
      TreeTheorems.EmptyTree(first);
    } else {
      var front, op := ops[..|ops| - 1], ops[|ops| - 1];
      var (t, np) := TreeTheorems.Run(front, first);
      FoundWasInserted(front, first, n);
      TreeTheorems.InsertUpdates(t, TreeTheorems.HeightOf(t), op.0, op.1, np);
      assert ops == front + [op];
    }
  }

  /** No two rows have the same int in column k. */
  ghost predicate IntsUnique(t: Contents, k: nat) {
    forall r, r', n :: Keyed(t, r, k, n) && Keyed(t, r', k, n) ==> r == r'
  }

  /** In a PRIMARY KEY or UNIQUE column the ints are, however values print. */
  lemma KeyIntsUnique(t: Contents, keys: seq<bool>, display: Value -> string, k: nat)
    requires KeysUnique(t, keys, display) && k < |keys| && keys[k]
    ensures IntsUnique(t, k)
  {
    forall r, r', n | Keyed(t, r, k, n) && Keyed(t, r', k, n) ensures r == r' {
      assert t[r][k] == t[r'][k] == IntValue(n);
      assert display(t[r][k]) == display(t[r'][k]);
    }
  }

  /** Then a search for the int of a row finds that row. */
  lemma IndexFindsTheRow(t: Contents, rows: seq<Row>, k: nat, show: seq<Value> -> seq<Byte>, first: nat, rid: RID,
                         n: int)
    requires IsListing(rows, t) && first != 0 && IntsUnique(t, k) && Keyed(t, rid, k, n)
    ensures var m := TreeTheorems.MapOf(TreeTheorems.Run(IndexOps(rows, k, show), first).0);
            n in m && m[n] == show(t[rid])
  {
    hide IndexOps, IsListing, TreeTheorems.Run, TreeTheorems.MapOf, TreeTheorems.Sound, Keyed;
    IndexFindsARow(t, rows, k, show, first, n);
  }

  ghost predicate DistinctKeys(ops: seq<Op>) {
    forall i, j :: 0 <= i < j < |ops| ==> ops[i].0 != ops[j].0
  }

  lemma {:induction false} OpsDistinct(rows: seq<Row>, k: nat, show: seq<Value> -> seq<Byte>)
    requires forall i, j :: 0 <= i < j < |rows| && HasInt(rows[i].values, k) && HasInt(rows[j].values, k) ==>
               rows[i].values[k] != rows[j].values[k]
    ensures DistinctKeys(IndexOps(rows, k, show))
  {
    if rows != [] {
      var front, last := rows[..|rows| - 1], rows[|rows| - 1];
      OpsDistinct(front, k, show);
      var ops := IndexOps(front, k, show);
      forall i | 0 <= i < |ops| && HasInt(last.values, k) ensures ops[i].0 != last.values[k].n {
        OpsAre(front, k, show, ops[i]);
        var j :| 0 <= j < |front| && HasInt(front[j].values, k) &&
          ops[i] == (front[j].values[k].n, show(front[j].values));
        assert rows[j] == front[j];
      }
    }
  }

  /** With such ints the index holds no second copies, so all its scans are sorted. */
  lemma IndexHasNoCopies(t: Contents, rows: seq<Row>, k: nat, show: seq<Value> -> seq<Byte>, first: nat)
    requires IsListing(rows, t) && first != 0 && IntsUnique(t, k)
    ensures TreeTheorems.ShadowsOf(TreeTheorems.Run(IndexOps(rows, k, show), first).0) == map[]
  {
    hide TreeTheorems.Run, TreeTheorems.ShadowsOf, TreeTheorems.Sound;
    var ops := IndexOps(rows, k, show);
    forall i, j | 0 <= i < j < |rows| && HasInt(rows[i].values, k) && HasInt(rows[j].values, k)
      ensures rows[i].values[k] != rows[j].values[k]
    {
      assert Before(rows[i].rid, rows[j].rid);
      assert Keyed(t, rows[i].rid, k, rows[i].values[k].n) && Keyed(t, rows[j].rid, k, rows[j].values[k].n);
    }
    OpsDistinct(rows, k, show);
    TreeTheorems.FreshKeysNeverSeparate(ops, first);
    TreeTheorems.RunIsReplay(ops, first);
  }
}
