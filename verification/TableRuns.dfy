// Runs of inserts, deletes, updates and drops on any number of tables.
module TableRuns {
  import opened Sequences
  import opened Bytes
  import opened Results
  import opened PageModel
  import opened PoolModel
  import opened RowModel
  import opened HeapModel
  import opened StatementModel
  import opened Heap

  /** A step, with the table it is called on. */
  datatype Step =
    | Look                                                        // a scan, a read, a flush, a refused insert
    | Insert(t: nat, rid: RID, bytes: seq<Byte>)
    | Remove(t: nat, rid: RID)                                    // a delete, or an update that lost the row
    | Replace(t: nat, rid: RID, next: RID, bytes: seq<Byte>)
    | Drop(t: nat, pages: iset<nat>)                              // these pages of the table emptied

  /** The live rows, and the RIDs handed out with the table each was handed out to. */
  datatype State = State(live: imap<RID, TableRow>, used: imap<RID, nat>)

  /** A row without bytes does not live. */
  ghost function Added(live: imap<RID, TableRow>, rid: RID, row: TableRow): imap<RID, TableRow> {
    if row.bytes == [] then live else live[rid := row]
  }

  /** Neither Remove nor Replace looks at whose RID it is; Replace also takes the RID of a deleted row. */
  ghost predicate Takes(s: State, step: Step, s': State) {
    match step
    case Look => s' == s
    case Insert(t, rid, bytes) =>
      rid !in s.used && s' == State(Added(s.live, rid, TableRow(t, bytes)), s.used[rid := t])
    case Remove(_, rid) => rid in s.used && s' == s.(live := s.live - {rid})
    case Replace(_, rid, next, bytes) =>
      && next !in s.used && rid in s.used
      && s' == State(Added(s.live - {rid}, next, TableRow(s.used[rid], bytes)), s.used[next := s.used[rid]])
    case Drop(t, pages) =>
      && s'.live == (imap rid | rid in s.live && !(s.live[rid].owner == t && rid.pageID in pages) :: s.live[rid])
      && s'.used == (imap rid | rid in s.used && !(s.used[rid] == t && rid.pageID in pages) :: s.used[rid])
  }

  /** Every live row has a RID that was handed out to its table. */
  ghost predicate Sound(s: State) {
    forall rid :: rid in s.live ==> rid in s.used && s.used[rid] == s.live[rid].owner
  }

  ghost predicate Run(states: seq<State>, steps: seq<Step>) {
    && |states| == |steps| + 1 && Sound(states[0])
    && forall i :: 0 <= i < |steps| ==> Takes(states[i], steps[i], states[After(i)])
  }

  function After(i: int): int { i + 1 }

  lemma TakesSound(s: State, step: Step, s': State)
    requires Sound(s) && Takes(s, step, s')
    ensures Sound(s')
  {
  }

  lemma {:induction false} RunSound(states: seq<State>, steps: seq<Step>, i: nat)
    requires Run(states, steps) && i < |states|
    ensures Sound(states[i])
  {
    if i > 0 {
      RunSound(states, steps, i - 1);
      assert After(i - 1) == i;
      TakesSound(states[i - 1], steps[i - 1], states[i]);
    }
  }

  // ----- RIDs are not handed out twice -----

  /** The RID that a step hands out. */
  function Given(step: Step): Option<RID> {
    match step
    case Insert(_, rid, _) => Some(rid)
    case Replace(_, _, next, _) => Some(next)
    case _ => None
  }

  /** No drop of table t empties the page of the RID. */
  ghost predicate NoDrops(steps: seq<Step>, t: nat, rid: RID, i: nat, j: nat)
    requires j <= |steps|
  {
    forall k :: i <= k < j ==> !(steps[k].Drop? && steps[k].t == t && rid.pageID in steps[k].pages)
  }

  /** A RID stays with the table it was handed out to until a drop of that table empties its page. */
  lemma {:induction false} UsedStays(states: seq<State>, steps: seq<Step>, rid: RID, i: nat, j: nat)
    requires Run(states, steps) && i <= j < |states| && rid in states[i].used &&
             NoDrops(steps, states[i].used[rid], rid, i, j)
    ensures rid in states[j].used && states[j].used[rid] == states[i].used[rid]
    decreases j - i
  {
    if i < j {
      assert Takes(states[i], steps[i], states[After(i)]);
      UsedStays(states, steps, rid, i + 1, j);
    }
  }

  /**
   A RID handed out to a table is not handed out again, to whatever table, until a drop of that table empties its page.
   */
  lemma NeverReused(states: seq<State>, steps: seq<Step>, i: nat, j: nat)
    requires Run(states, steps) && i < j < |steps| && Given(steps[i]).Some? && Given(steps[i]) == Given(steps[j])
    ensures var rid := Given(steps[i]).value; !NoDrops(steps, states[i + 1].used[rid], rid, i + 1, j)
  {
    var rid := Given(steps[i]).value;
    assert Takes(states[i], steps[i], states[After(i)]);
    assert Takes(states[j], steps[j], states[After(j)]);
    if NoDrops(steps, states[i + 1].used[rid], rid, i + 1, j) {
      UsedStays(states, steps, rid, i + 1, j);
    }
  }

  // ----- a live row stays until it is removed -----

  /** The step takes the row of this RID away. */
  ghost predicate TakesAway(s: State, step: Step, rid: RID) {
    match step
    case Remove(_, r) => r == rid
    case Replace(_, r, _, _) => r == rid
    case Drop(t, pages) => rid in s.live && s.live[rid].owner == t && rid.pageID in pages
    case _ => false
  }

  /** A live RID names the same row of the same table until a step takes it away. */
  lemma {:induction false} RowStays(states: seq<State>, steps: seq<Step>, rid: RID, i: nat, j: nat)
    requires Run(states, steps) && i <= j < |states| && rid in states[i].live
    requires forall k :: i <= k < j ==> !TakesAway(states[k], steps[k], rid)
    ensures rid in states[j].live && states[j].live[rid] == states[i].live[rid]
    decreases j - i
  {
    if i < j {
      RunSound(states, steps, i);
      assert Takes(states[i], steps[i], states[After(i)]);
      assert !TakesAway(states[i], steps[i], rid);
      RowStays(states, steps, rid, i + 1, j);
    }
  }

  // ----- when tables disturb each other -----

  ghost function RowsOfTable(s: State, t: nat): imap<RID, TableRow> {
    imap rid | rid in s.live && s.live[rid].owner == t :: s.live[rid]
  }

  /** The step is a statement on table t. */
  predicate CalledOn(step: Step, t: nat) {
    !step.Look? && step.t == t
  }

  /** The step removes a row of table t, or puts one where table t had one before. */
  ghost predicate Reaches(s: State, step: Step, t: nat) {
    match step
    case Remove(_, rid) => rid in s.live && s.live[rid].owner == t
    case Replace(_, rid, _, bytes) => rid in s.used && s.used[rid] == t && (rid in s.live || bytes != [])
    case _ => false
  }

  /** A statement on another table leaves table t alone exactly if its RID does not reach into it. */
  lemma StepIsolated(s: State, step: Step, s': State, t: nat)
    requires Sound(s) && Takes(s, step, s') && !CalledOn(step, t)
    ensures RowsOfTable(s', t) == RowsOfTable(s, t) <==> !Reaches(s, step, t)
  {
    if Reaches(s, step, t) {
      if step.Replace? && step.bytes != [] {
        assert step.next in RowsOfTable(s', t) && step.next !in RowsOfTable(s, t);
      } else {
        assert step.rid in RowsOfTable(s, t) && step.rid !in RowsOfTable(s', t);
      }
    }
  }

  /** The RID was handed out by a statement on table t at step i, and no drop of t emptied its page before step j. */
  ghost predicate GotAt(steps: seq<Step>, i: nat, j: nat, t: nat, rid: RID) {
    i < j <= |steps| && CalledOn(steps[i], t) && Given(steps[i]) == Some(rid) && NoDrops(steps, t, rid, i + 1, j)
  }

  ghost predicate Got(steps: seq<Step>, j: nat, t: nat, rid: RID) {
    exists i: nat :: GotAt(steps, i, j, t, rid)
  }

  /**
   What a caller can see to: deletes and updates on a table only use RIDs that the table gave since a drop last emptied
   their pages.
   */
  ghost predicate OwnRIDs(steps: seq<Step>) {
    forall j: nat :: j < |steps| && (steps[j].Remove? || steps[j].Replace?) ==> Got(steps, j, steps[j].t, steps[j].rid)
  }

  /** Then each RID in use belongs to the table that its statement is called on. */
  lemma {:induction false} GotIsOwn(states: seq<State>, steps: seq<Step>, j: nat, t: nat, rid: RID)
    requires Run(states, steps) && OwnRIDs(steps) && j < |states| && Got(steps, j, t, rid)
    ensures rid in states[j].used && states[j].used[rid] == t
    decreases j
  {
    var i: nat :| GotAt(steps, i, j, t, rid);
    assert Takes(states[i], steps[i], states[After(i)]);
    if steps[i].Replace? {
      assert Got(steps, i, t, steps[i].rid);
      GotIsOwn(states, steps, i, t, steps[i].rid);
    }
    UsedStays(states, steps, rid, i + 1, j);
  }

  lemma OwnReachesNone(states: seq<State>, steps: seq<Step>, i: nat, t: nat)
    requires Run(states, steps) && OwnRIDs(steps) && i < |steps| && Sound(states[i]) && !CalledOn(steps[i], t)
    ensures !Reaches(states[i], steps[i], t)
  {
    if steps[i].Remove? || steps[i].Replace? {
      GotIsOwn(states, steps, i, steps[i].t, steps[i].rid);
    }
  }

  /**
   However statements interleave: if deletes and updates only use RIDs of their own table, then those
   on other tables leave a table exactly as it was.
   */
  lemma {:induction false} TablesIsolated(states: seq<State>, steps: seq<Step>, t: nat, i: nat, j: nat)
    requires Run(states, steps) && OwnRIDs(steps) && i <= j < |states|
    requires forall k :: i <= k < j ==> !CalledOn(steps[k], t)
    ensures RowsOfTable(states[j], t) == RowsOfTable(states[i], t)
    decreases j - i
  {
    hide Takes, Sound, Reaches, RowsOfTable, OwnRIDs;
    if i < j {
      RunSound(states, steps, i);
      assert After(i) == i + 1;
      OwnReachesNone(states, steps, i, t);
      StepIsolated(states[i], steps[i], states[i + 1], t);
      TablesIsolated(states, steps, t, i + 1, j);
    }
  }

  /** A RID kept from before a DROP: after another table got the page, deleting it takes the other table's row. */
  lemma StaleRIDTakesForeignRow(t: nat, u: nat, rid: RID, bytes: seq<Byte>)
    requires t != u && bytes != []
    ensures var s0 := State(imap[], imap[]);
            var s1 := State(imap[rid := TableRow(u, bytes)], imap[rid := u]);
            var s2 := State(imap[rid := TableRow(t, bytes)], imap[rid := t]);
            var s3 := State(imap[], imap[rid := t]);
            && Run([s0, s1, s0, s2, s3],
               [Insert(u, rid, bytes), Drop(u, iset{rid.pageID}), Insert(t, rid, bytes), Remove(u, rid)])
            && rid in RowsOfTable(s2, t) && rid !in RowsOfTable(s3, t)
  {
    var s0 := State(imap[], imap[]);
    var s1 := State(imap[rid := TableRow(u, bytes)], imap[rid := u]);
    var s2 := State(imap[rid := TableRow(t, bytes)], imap[rid := t]);
    var s3 := State(imap[], imap[rid := t]);
    assert Takes(s0, Insert(u, rid, bytes), s1);
    assert Takes(s1, Drop(u, iset{rid.pageID}), s0);
    assert Takes(s0, Insert(t, rid, bytes), s2);
    assert s2.live - {rid} == s3.live;
    assert Takes(s2, Remove(u, rid), s3);
  }

  // ----- the heap takes such steps -----

  ghost function StateOf(p: Pool): State
    requires HeapOk(p)
  {
    State(Live(p), Used(p))
  }

  lemma HeapIsSound(p: Pool)
    requires HeapOk(p)
    ensures Sound(StateOf(p))
  {
    hide Held, PoolOk;
  }

  /** A new database is where runs start. */
  lemma NewDatabaseState(capacity: nat)
    ensures HeapOk(Reopened(Store([], 0), capacity)) &&
            StateOf(Reopened(Store([], 0), capacity)) == State(imap[], imap[])
  {
    NewDatabase(capacity);
  }

  lemma LookTakes(p: Pool, p': Pool)
    requires SameHoldings(p, p')
    ensures Takes(StateOf(p), Look, StateOf(p'))
  {
    SameLive(p, p');
  }

  lemma InsertTakes(p: Pool, p': Pool, r: Result<RID>, t: nat, bytes: seq<Byte>)
    requires Inserted(p, p', r, t, bytes)
    ensures Takes(StateOf(p), if r.Ok? then Insert(t, r.value, bytes) else Look, StateOf(p'))
  {
    hide HeapOk, Live, Used;
  }

  lemma RemoveTakes(p: Pool, p': Pool, r: Result<()>, t: nat, rid: RID)
    requires Removed(p, p', r, rid)
    ensures Takes(StateOf(p), if r.Ok? then Remove(t, rid) else Look, StateOf(p'))
  {
    hide HeapOk, Live, Used;
  }

  /** The step of an update that ended with r. */
  ghost function UpdateStep(p: Pool, r: Result<()>, t: nat, rid: RID, newRow: seq<Value>, schema: Schema): Step
    requires HeapOk(p) && (|newRow| == |schema| ==> Typed(newRow, schema))
  {
    match r
    case Ok(_) =>
      if |newRow| == |schema| && 1 <= rid.pageID < PAGE_LIMIT
      then Replace(t, rid, NextRID(p, rid.pageID), Encode(newRow, schema)) else Look
    case Err(e) => if e == Deadlock || e == Panicked || e == WrongColumnCount then Remove(t, rid) else Look
  }

  lemma UpdateTakes(p: Pool, p': Pool, r: Result<()>, t: nat, rid: RID, newRow: seq<Value>, schema: Schema)
    requires |newRow| == |schema| ==> Typed(newRow, schema)
    requires Updated(p, p', r, rid, newRow, schema)
    ensures Takes(StateOf(p), UpdateStep(p, r, t, rid, newRow, schema), StateOf(p'))
  {
    hide HeapOk, Live, Used, Rooms, Encode, Fetchable, Held, Typed;
    if rid in Used(p) {
      UsedPage(p, rid);
    }
  }

  /** Every drop is a step on the pages that can be fetched; it empties the table if some frame has no pin. */
  lemma DropTakes(p: Pool, p': Pool, t: nat)
    requires Clears(p, p', t)
    ensures Takes(StateOf(p), Drop(t, iset q | Fetchable(p, q)), StateOf(p'))
    ensures HasRoom(p) ==> RowsOfTable(StateOf(p'), t) == imap[] && forall rid :: rid in Used(p') ==> Used(p')[rid] != t
  {
    hide HeapOk, Live, Used, Held, HasRoom;
    ClearsRows(p, p', t);
  }

  lemma ReopenTakes(p: Pool, capacity: nat)
    requires HeapOk(p)
    ensures HeapOk(Reopened(FlushAll(p).store, capacity))
    ensures Takes(StateOf(p), Look, StateOf(Reopened(FlushAll(p).store, capacity)))
  {
    ReopenedRows(p, capacity);
  }

  /** DeleteRow of table t leaves the other tables alone exactly if the RID is not a live row of one of them. */
  lemma DeleteIsolated(p: Pool, p': Pool, r: Result<()>, t: nat, rid: RID)
    requires Removed(p, p', r, rid)
    ensures Others(p', t) == Others(p, t) <==> !(r.Ok? && rid in Live(p) && Live(p)[rid].owner != t)
  {
    hide HeapOk, Live, Used, Rooms, Fetchable;
    if r.Ok? && rid in Live(p) && Live(p)[rid].owner != t {
      assert rid in Others(p, t) && rid !in Others(p', t);
    }
  }

  /**
   UpdateRow of table t leaves the other tables alone exactly if it is refused, or the RID is one of t's,
   or a deleted one that gets no new row.
   */
  lemma UpdateIsolated(p: Pool, p': Pool, r: Result<()>, t: nat, rid: RID, newRow: seq<Value>, schema: Schema)
    requires |newRow| == |schema| ==> Typed(newRow, schema)
    requires Updated(p, p', r, rid, newRow, schema)
    ensures Others(p', t) == Others(p, t) <==>
            || r == Err(NoSuchSlot) || r == Err(AllPinned) || (rid in Used(p) && Used(p)[rid] == t)
            || (rid !in Live(p) && !(r.Ok? && |newRow| == |schema| && Encode(newRow, schema) != []))
  {
    hide HeapOk, Live, Used, Rooms, Encode, Fetchable, Held, Typed;
    HeapIsSound(p);
    if rid in Used(p) {
      UsedPage(p, rid);
    }
    if r.Ok? {
      var next := NextRID(p, rid.pageID);
      assert next !in Live(p) by { assert next !in StateOf(p).used; }
      if Used(p)[rid] != t && Encode(newRow, schema) != [] {
        assert next in Others(p', t) && next !in Others(p, t);
      }
    }
    if rid in Live(p) && Live(p)[rid].owner != t && rid !in Live(p') {
      assert rid in Others(p, t) && rid !in Others(p', t);
    }
  }
}
