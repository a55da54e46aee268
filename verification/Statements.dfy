// INSERT, UPDATE, DELETE and DROP on a table; keys are compared as they print.
module Statements {
  import opened Sequences
  import opened Bytes
  import opened Results
  import opened PageModel
  import opened PoolModel
  import opened RowModel
  import opened HeapModel
  import opened TableModel
  import opened StatementModel
  import opened SlottedPage
  import opened Heap
  import FirstFit
  import BP = BufferPool

  class Executor {
    const table: HeapFile
    /** For each column, whether it is PRIMARY KEY or UNIQUE. */
    const keys: seq<bool>
    /** How a value prints. */
    const show: Value -> string

    constructor (table: HeapFile, keys: seq<bool>, show: Value -> string)
      requires table.Valid() && |keys| == |table.Schema| > 0
      ensures Valid() && this.table == table && this.keys == keys && this.show == show && State() == old(table.State())
    {
      this.table, this.keys, this.show := table, keys, show;
      new;
      table.BufferPool.Unmoved();
    }

    ghost predicate Valid()
      reads table.BufferPool, table.BufferPool.frames, table.BufferPool.disk, table.BufferPool.Pages()
    {
      table.Valid() && |keys| == |table.Schema| > 0
    }

    ghost function State(): Pool
      reads table.BufferPool, table.BufferPool.frames, table.BufferPool.disk, table.BufferPool.Pages()
    {
      table.State()
    }

    /** The rows of the table. */
    ghost function Rows(): Contents
      requires Valid()
      reads table.BufferPool, table.BufferPool.frames, table.BufferPool.disk, table.BufferPool.Pages()
    {
      Table(State(), table.tableID, table.Schema)
    }

    /** The rows that a scan sees: those on pages that can be fetched, all of them if some frame has no pin. */
    ghost function SeenRows(): Contents
      requires Valid()
      reads table.BufferPool, table.BufferPool.frames, table.BufferPool.disk, table.BufferPool.Pages()
    {
      Seen(State(), table.tableID, table.Schema)
    }

    ghost function Now(): Snapshot
      requires Valid()
      reads table.BufferPool, table.BufferPool.frames, table.BufferPool.disk, table.BufferPool.Pages()
    {
      Snap(State(), table.tableID, table.Schema)
    }

    /** Whether a row seen but the excepted one has a value in column k that counts as the same as v. */
    method IsTaken(k: nat, v: Value, except: Option<RID>) returns (taken: bool)
      requires Valid() && k < |keys|
      modifies table.BufferPool, table.BufferPool.frames, table.BufferPool.disk, table.BufferPool.Pages()
      ensures Valid() && fresh(table.BufferPool.Pages() - old(table.BufferPool.Pages()))
      ensures Unseen(old(State()), State())
      ensures taken == Taken(old(SeenRows()), show, k, v, except)
    {
      hide BP.BufferPool.State, HasRoom, PoolOk, HeapOk, PinsKept, Carries, NoHigher, Seen;
      ghost var t := SeenRows();
      AllTyped(State(), table.tableID, table.Schema);
      var rows := table.ScanFull();
      var i := 0;
      while i < |rows|
        invariant i <= |rows|
        invariant forall j :: 0 <= j < i ==> Some(rows[j].rid) == except || !Clash(show, rows[j].values[k], v)
      {
        if Some(rows[i].rid) != except && Clash(show, rows[i].values[k], v) {
          return true;
        }
        i := i + 1;
      }
      forall rid | rid in t && Some(rid) != except ensures !Clash(show, t[rid][k], v) {
        assert Listed(rows, rid);
      }
      return false;
    }

    /** Whether no key column of the values is taken by a row seen. */
    method KeysFree(values: seq<Value>) returns (free: bool)
      requires Valid() && |values| == |keys|
      modifies table.BufferPool, table.BufferPool.frames, table.BufferPool.disk, table.BufferPool.Pages()
      ensures Valid() && fresh(table.BufferPool.Pages() - old(table.BufferPool.Pages()))
      ensures Unseen(old(State()), State())
      ensures free == Free(old(SeenRows()), keys, show, values, None)
    {
      hide BP.BufferPool.State, HasRoom, Live, Used, Rooms, Others, Table, PoolOk, HeapOk, PinsKept, Unseen, Seen;
      hide Taken;
      hide Free;
      ghost var start := State();
      ghost var t := SeenRows();
      UnseenSelf(start);
      FreeNone(t, keys, show, values, None);
      for k := 0 to |keys|
        invariant Valid() && fresh(table.BufferPool.Pages() - old(table.BufferPool.Pages()))
        invariant Unseen(start, State())
        invariant Free(t, keys[..k], show, values, None)
      {
        if keys[k] {
          ghost var p := State();
          UnseenTable(start, p, table.tableID, table.Schema);
          var taken := IsTaken(k, values[k], None);
          UnseenOn(start, p, State());
          if taken {
            NotFree(t, keys, show, values, k, None);
            return false;
          }
        }
        FreeOneMore(t, keys, show, values, k, None);
      }
      assert keys[..|keys|] == keys;
      return true;
    }

    /**
     INSERT: refused if a key is taken by a row seen, or if the row does not fit a new page; else the table
     has one more row, under a new RID. Keys stay unique exactly if none is taken by a row not seen either.
     */
    method ExecuteInsert(values: seq<Value>) returns (r: Result<RID>)
      requires Valid() && Below(State(), PAGE_LIMIT - 1)
      requires |values| == |table.Schema| ==> Typed(values, table.Schema)
      modifies table.BufferPool, table.BufferPool.frames, table.BufferPool.disk, table.BufferPool.Pages()
      ensures Valid() && fresh(table.BufferPool.Pages() - old(table.BufferPool.Pages()))
      ensures if r == Err(Panicked) then OnePinMore(old(State()), State()) else PinsKept(old(State()), State())
      ensures r == Err(WrongColumnCount) <==> |values| != |table.Schema|
      ensures r == Err(DuplicateValue) <==>
                |values| == |table.Schema| && !Free(old(SeenRows()), keys, show, values, None)
      ensures r.Ok? ==> |values| == |table.Schema| && |Encode(values, table.Schema)| <= MAX_ROW
      ensures HasRoom(old(State())) ==>
                (r.Ok? <==> |values| == |table.Schema| && Free(old(Rows()), keys, show, values, None) &&
                            |Encode(values, table.Schema)| <= MAX_ROW)
      ensures r.Err? && r.error != WrongColumnCount && r.error != DuplicateValue ==>
                (r.error == AllPinned && !HasRoom(old(State()))) ||
                (|values| == |table.Schema| && r.error == Reason(FULL_ROOM, Encode(values, table.Schema)))
      ensures r.Ok? ==> r.value !in Used(old(State())) && Used(State()) == Used(old(State()))[r.value := table.tableID]
      ensures r.Ok? ==> Rows() == old(Rows())[r.value := values]
      ensures r.Ok? ==> |values| == |table.Schema| &&
                        RoomTaken(Rooms(old(State())), Rooms(State()), r.value.pageID,
                          |Encode(values, table.Schema)| + SLOT_SIZE)
      ensures r.Err? ==> Rows() == old(Rows())
      ensures Others(State(), table.tableID) == Others(old(State()), table.tableID)
      ensures r.Ok? ==> (KeysUnique(Rows(), keys, show) <==>
                         KeysUnique(old(Rows()), keys, show) && Free(old(Rows()), keys, show, values, None))
    {
      hide BP.BufferPool.State, HasRoom, Used, Live, Rooms, RoomTaken, PoolOk, HeapOk, OnePinMore, PinsKept, Unseen;
      hide Below, Table;
      hide Seen, Taken, Free, KeysUnique, Typed, Encode, Inserted, Others, Reason, FirstFit.IsFirstFit;
      ghost var start := State();
      UnseenSelf(start);
      UnseenTable(start, start, table.tableID, table.Schema);
      if |values| != |table.Schema| {
        return Err(WrongColumnCount);
      }
      var free := KeysFree(values);
      ghost var p := State();
      UnseenRoom(start, p);
      UnseenTable(start, p, table.tableID, table.Schema);
      if HasRoom(start) {
        AllSeen(start, table.tableID, table.Schema);
      }
      if !free {
        return Err(DuplicateValue);
      }
      NoHigherBelow(start, p);
      r := table.InsertRow(values);
      if r == Err(Panicked) {
        PinMoreOn(start, p, State());
      } else {
        PinsKeptOn(start, p, State());
      }
      InsertedTable(p, State(), r, table.tableID, values, table.Schema, keys, show);
      NeverDuplicate(FULL_ROOM, Encode(values, table.Schema));
    }

    /** The rows seen that satisfy a condition. */
    method Matching(cond: seq<Value> -> bool) returns (matched: seq<Row>)
      requires Valid()
      modifies table.BufferPool, table.BufferPool.frames, table.BufferPool.disk, table.BufferPool.Pages()
      ensures Valid() && fresh(table.BufferPool.Pages() - old(table.BufferPool.Pages()))
      ensures Unseen(old(State()), State())
      ensures exists rows :: IsListing(rows, old(SeenRows())) && matched == Filtered(rows, cond)
    {
      hide BP.BufferPool.State, HasRoom, PoolOk, HeapOk, Seen, Ascending, OnlyFrom, AllOf;
      var rows := table.ScanFull();
      matched := [];
      for i := 0 to |rows|
        invariant matched == Filtered(rows[..i], cond)
      {
        assert rows[..i + 1] == rows[..i] + [rows[i]];
        if cond(rows[i].values) {
          matched := matched + [rows[i]];
        }
      }
      assert rows[..|rows|] == rows;
      assert IsListing(rows, old(SeenRows()));
    }

    /** Delete a row of the table that a scan saw. */
    method DeleteOne(rid: RID, ghost start: Pool) returns (r: Result<()>)
      requires Valid() && rid in SeenRows() && HeapOk(start)
      requires PinsKept(start, State()) && NoHigher(start, State())
      modifies table.BufferPool, table.BufferPool.frames, table.BufferPool.disk, table.BufferPool.Pages()
      ensures Valid() && fresh(table.BufferPool.Pages() - old(table.BufferPool.Pages()))
      ensures PinsKept(start, State()) && NoHigher(start, State()) && Used(State()) == old(Used(State()))
      ensures r.Ok? && Rows() == old(Rows()) - {rid} && SeenRows() == old(SeenRows()) - {rid}
      ensures Others(State(), table.tableID) == old(Others(State(), table.tableID))
    {
      hide BP.BufferPool.State, Used, Live, Rooms, PoolOk, HeapOk, PinsKept, NoHigher, Table, Seen, Others, Within;
      hide Fetchable;
      ghost var p := State();
      HeapParts(start);
      SeenIsLive(p, table.tableID, table.Schema, rid);
      r := table.DeleteRow(rid);
      PinsKeptOn(start, p, State());
      NoHigherWithin(start, p, rid.pageID, State());
      RemovedRow(p, State(), table.tableID, table.Schema, rid);
      SeenRemoved(p, State(), table.tableID, table.Schema, rid);
    }

    /** Delete these rows of the table. */
    method DeleteRows(matched: seq<Row>, ghost start: Pool) returns (deleted: nat)
      requires Valid() && Unseen(start, State()) && Ascending(matched)
      requires OnlyFrom(matched, Rows()) && OnlyFrom(matched, SeenRows())
      modifies table.BufferPool, table.BufferPool.frames, table.BufferPool.disk, table.BufferPool.Pages()
      ensures Valid() && fresh(table.BufferPool.Pages() - old(table.BufferPool.Pages()))
      ensures PinsKept(start, State()) && NoHigher(start, State()) && Used(State()) == old(Used(State()))
      ensures Rows() == WithoutFirst(old(Rows()), matched, |matched|) && deleted == |matched|
      ensures Others(State(), table.tableID) == Others(old(State()), table.tableID)
    {
      hide BP.BufferPool.State, HasRoom, Used, Live, Rooms, PoolOk, HeapOk, PinsKept, NoHigher, Table, Seen, Others;
      hide WithoutFirst, Ascending, Unseen;
      ghost var t, seen := Rows(), SeenRows();
      UnseenTable(start, State(), table.tableID, table.Schema);
      UnseenParts(start, State());
      WithoutNone(t, matched);
      WithoutNone(seen, matched);
      deleted := 0;
      for i := 0 to |matched|
        invariant Valid() && fresh(table.BufferPool.Pages() - old(table.BufferPool.Pages()))
        invariant PinsKept(start, State()) && NoHigher(start, State())
        invariant Used(State()) == old(Used(State()))
        invariant Rows() == WithoutFirst(t, matched, i) && SeenRows() == WithoutFirst(seen, matched, i) && deleted == i
        invariant Others(State(), table.tableID) == old(Others(State(), table.tableID))
      {
        WithoutOneMore(t, matched, i);
        WithoutOneMore(seen, matched, i);
        var r := DeleteOne(matched[i].rid, start);
        if r.Ok? {
          deleted := deleted + 1;
        }
      }
    }

    /** DELETE: exactly the rows seen that satisfy the condition go. */
    method ExecuteDelete(cond: seq<Value> -> bool) returns (deleted: nat)
      requires Valid()
      modifies table.BufferPool, table.BufferPool.frames, table.BufferPool.disk, table.BufferPool.Pages()
      ensures Valid() && fresh(table.BufferPool.Pages() - old(table.BufferPool.Pages()))
      ensures PinsKept(old(State()), State()) && NoHigher(old(State()), State()) && Used(State()) == Used(old(State()))
      ensures Rows() == Unmatched(old(Rows()), old(SeenRows()), cond)
      ensures HasRoom(old(State())) ==> old(SeenRows()) == old(Rows())
      ensures forall rows :: IsListing(rows, old(SeenRows())) ==> deleted == |Filtered(rows, cond)|
      ensures Others(State(), table.tableID) == Others(old(State()), table.tableID)
      ensures KeysUnique(old(Rows()), keys, show) ==> KeysUnique(Rows(), keys, show)
    {
      hide BP.BufferPool.State, HasRoom, Used, Live, Rooms, PoolOk, HeapOk, PinsKept, NoHigher, Table, Seen, Others;
      hide KeysUnique, Filtered, IsListing, WithoutFirst, Unmatched, Ascending, OnlyFrom, Unseen;
      ghost var start, t, seen := State(), Rows(), SeenRows();
      var matched := Matching(cond);
      ghost var rows :| IsListing(rows, seen) && matched == Filtered(rows, cond);
      MatchedAre(seen, rows, cond);
      SeenFrom(start, table.tableID, table.Schema, matched);
      UnseenTable(start, State(), table.tableID, table.Schema);
      deleted := DeleteRows(matched, start);
      WithoutMatched(t, seen, rows, cond);
      UniqueUnmatched(t, seen, cond, keys, show);
      OneOutcome(seen, rows, cond);
      if HasRoom(start) {
        AllSeen(start, table.tableID, table.Schema);
      }
    }

    /** Whether no key column named by the updates is taken by another row seen. */
    method UpdatedKeysFree(values: seq<Value>, rid: RID, updates: seq<Update>) returns (free: bool)
      requires Valid() && |values| == |keys| && UpdatesFit(updates, table.Schema)
      modifies table.BufferPool, table.BufferPool.frames, table.BufferPool.disk, table.BufferPool.Pages()
      ensures Valid() && fresh(table.BufferPool.Pages() - old(table.BufferPool.Pages()))
      ensures Unseen(old(State()), State())
      ensures free == UpdateFree(old(SeenRows()), keys, show, values, rid, updates, |updates|)
    {
      hide BP.BufferPool.State, HasRoom, Live, Used, Rooms, Others, Table, PoolOk, HeapOk, PinsKept, Unseen, Seen;
      hide Taken;
      hide UpdateFree;
      ghost var start, t := State(), SeenRows();
      UnseenSelf(start);
      UpdateFreeNone(t, keys, show, values, rid, updates);
      for i := 0 to |updates|
        invariant Valid() && fresh(table.BufferPool.Pages() - old(table.BufferPool.Pages()))
        invariant Unseen(start, State()) && UpdateFree(t, keys, show, values, rid, updates, i)
      {
        assert UpdateFits(updates[i], table.Schema);
        if updates[i].column.Some? && keys[updates[i].column.value] {
          ghost var p := State();
          var k := updates[i].column.value;
          UnseenTable(start, p, table.tableID, table.Schema);
          var taken := IsTaken(k, values[k], Some(rid));
          UnseenOn(start, p, State());
          if taken {
            UpdateNotFree(t, keys, show, values, rid, updates, i);
            return false;
          }
        }
        UpdateFreeOneMore(t, keys, show, values, rid, updates, i);
      }
      return true;
    }

    /** The UPDATE that sets these values. */
    ghost function Setting(updates: seq<Update>): Change {
      Change(updates, table.Schema, keys, show)
    }

    /** The new values of a row: unknown columns and values that could not be parsed are skipped. */
    method MakeValues(values: seq<Value>, updates: seq<Update>) returns (r: seq<Value>)
      requires Typed(values, table.Schema) && UpdatesFit(updates, table.Schema)
      ensures r == NewValues(values, updates, |updates|) && Typed(r, table.Schema)
    {
      r := values;
      for i := 0 to |updates|
        invariant r == NewValues(values, updates, i)
      {
        assert UpdateFits(updates[i], table.Schema);
        if updates[i].column.Some? && updates[i].value.Some? {
          r := r[updates[i].column.value := updates[i].value.value];
        }
      }
      NewValuesTyped(values, updates, |updates|, table.Schema);
    }

    /**
     Update one row that a scan saw: refused if a key is taken by another row seen; else it moves to a new RID
     with the new values, or, if it does not fit its page, is gone when the statement panics or hangs.
     */
    method UpdateOne(row: Row, updates: seq<Update>) returns (r: Result<()>, ghost next: RID)
      requires Valid() && CanUpdate(Setting(updates), row)
      requires row.rid in SeenRows() && row.rid in Rows() && Rows()[row.rid] == row.values &&
               row.rid.pageID in Now().rooms
      modifies table.BufferPool, table.BufferPool.frames, table.BufferPool.disk, table.BufferPool.Pages()
      ensures Valid() && fresh(table.BufferPool.Pages() - old(table.BufferPool.Pages()))
      ensures NoHigher(old(State()), State())
      ensures if r == Err(Deadlock) then OnePinMore(old(State()), State()) else PinsKept(old(State()), State())
      ensures OneUpdated(Setting(updates), old(Now()), Now(), row, next, r)
      ensures r.Ok? ==> next !in Used(old(State())) && Used(State()) == Used(old(State()))[next := table.tableID]
      ensures r.Err? ==> Used(State()) == Used(old(State()))
      ensures Others(State(), table.tableID) == Others(old(State()), table.tableID)
    {
      hide BP.BufferPool.State, Used, Live, Rooms, PoolOk, HeapOk, OnePinMore, PinsKept, NoHigher, Unseen, Table, Seen;
      hide Others, UpdateFree, Typed, Encode, Updated, Within, NewValues, Held, OneUpdated, Fetchable;
      ghost var start := State();
      next := row.rid;
      var values := MakeValues(row.values, updates);
      table.BufferPool.Unmoved();
      var free := UpdatedKeysFree(values, row.rid, updates);
      ghost var p := State();
      UnseenTable(start, p, table.tableID, table.Schema);
      UnseenParts(start, p);
      if !free {
        TakenRefused(start, p, row, next, table.tableID, Setting(updates));
        return Err(DuplicateValue), next;
      }
      SeenIsLive(p, table.tableID, table.Schema, row.rid);
      r := table.UpdateRow(row.rid, values);
      next := NextRID(p, row.rid.pageID);
      NoHigherWithin(start, p, row.rid.pageID, State());
      UpdatedTable(p, State(), r, row, table.tableID, Setting(updates));
      if r == Err(Deadlock) {
        PinMoreAt(p, State(), row.rid.pageID);
        PinMoreOn(start, p, State());
      } else {
        PinsKeptOn(start, p, State());
      }
    }

    /** Update the next of the matched rows; made are the RIDs of those updated before. */
    method UpdateNext(matched: seq<Row>, i: nat, updates: seq<Update>, ghost made: seq<RID>, ghost start: Pool)
      returns (r: Result<()>, ghost more: seq<RID>)
      requires Valid() && HeapOk(start) && i == |made| < |matched|
      requires PinsKept(start, State()) && NoHigher(start, State()) && NewRIDs(made, start, State())
      requires Reached(Setting(updates), Snap(start, table.tableID, table.Schema), matched, made, Now())
      modifies table.BufferPool, table.BufferPool.frames, table.BufferPool.disk, table.BufferPool.Pages()
      ensures Valid() && fresh(table.BufferPool.Pages() - old(table.BufferPool.Pages()))
      ensures NoHigher(start, State())
      ensures if r == Err(Deadlock) then OnePinMore(start, State()) else PinsKept(start, State())
      ensures NewRIDs(more, start, State())
      ensures var was := Snap(start, table.tableID, table.Schema);
              match r
              case Ok(_) => |more| == i + 1 && Reached(Setting(updates), was, matched, more, Now())
              case Err(e) => more == made && Outcome(Setting(updates), was, Rows(), matched, more, Err(e))
      ensures Others(State(), table.tableID) == Others(old(State()), table.tableID)
    {
      hide BP.BufferPool.State, HasRoom, Used, Live, Rooms, PoolOk, HeapOk, OnePinMore, PinsKept, NoHigher, Table, Seen;
      hide Others;
      hide NewRIDs, CanUpdate, HashString, Reached, OneUpdated, Outcome;
      ghost var p, c, was, now := State(), Setting(updates), Snap(start, table.tableID, table.Schema), Now();
      HeapParts(start);
      NewlyMade(made, start, p, table.tableID, table.Schema);
      NextThere(c, was, matched, made, now);
      var one, next := UpdateOne(matched[i], updates);
      NoHigherAgain(start, p, State());
      if one == Err(Deadlock) {
        PinMoreOn(start, p, State());
      } else {
        PinsKeptOn(start, p, State());
      }
      if one.Err? {
        SameUsedRIDs(made, start, p, State());
        RefusedOutcome(c, was, matched, made, now, Now(), next, one.error);
        return one, made;
      }
      OneMoreMade(made, next, table.tableID, start, p, State());
      ReachedNext(c, was, matched, made, now, Now(), next, one);
      return one, made + [next];
    }

    /** Update the matched rows one by one, until one is refused, or lost. */
    method UpdateRows(matched: seq<Row>, updates: seq<Update>, ghost start: Pool)
      returns (r: Result<nat>, ghost made: seq<RID>)
      requires Valid() && Unseen(start, State()) && Ready(Setting(updates), Now(), matched)
      modifies table.BufferPool, table.BufferPool.frames, table.BufferPool.disk, table.BufferPool.Pages()
      ensures Valid() && fresh(table.BufferPool.Pages() - old(table.BufferPool.Pages()))
      ensures NoHigher(start, State())
      ensures if r == Err(Deadlock) then OnePinMore(start, State()) else PinsKept(start, State())
      ensures HeapOk(start) && NewRIDs(made, start, State())
      ensures Outcome(Setting(updates), Snap(start, table.tableID, table.Schema), Rows(), matched, made, r)
      ensures Others(State(), table.tableID) == Others(old(State()), table.tableID)
    {
      hide BP.BufferPool.State, HasRoom, Used, Live, Rooms, PoolOk, HeapOk, OnePinMore, PinsKept, NoHigher, Table, Seen;
      hide Others;
      hide NewRIDs, Ready, CanUpdate, Outcome, Unseen, Reached, HashString;
      UnseenTable(start, State(), table.tableID, table.Schema);
      UnseenParts(start, State());
      ghost var c, was := Setting(updates), Now();
      made := [];
      NoNewRIDs(start, State());
      ReachedNone(c, was, matched);
      for i := 0 to |matched|
        invariant Valid() && fresh(table.BufferPool.Pages() - old(table.BufferPool.Pages()))
        invariant PinsKept(start, State()) && NoHigher(start, State())
        invariant |made| == i && Reached(c, was, matched, made, Now()) && NewRIDs(made, start, State())
        invariant Others(State(), table.tableID) == Others(start, table.tableID)
      {
        var one;
        one, made := UpdateNext(matched, i, updates, made, start);
        if one.Err? {
          return Err(one.error), made;
        }
      }
      DoneOutcome(c, was, matched, made, Now());
      return Ok(|matched|), made;
    }

    /**
     UPDATE: the rows seen that satisfy the condition are updated one by one, in RID order, until all are
     or one is refused, or lost; those updated before stay updated.
     */
    method ExecuteUpdate(cond: seq<Value> -> bool, updates: seq<Update>) returns (r: Result<nat>, ghost made: seq<RID>)
      requires Valid() && UpdatesFit(updates, table.Schema)
      modifies table.BufferPool, table.BufferPool.frames, table.BufferPool.disk, table.BufferPool.Pages()
      ensures Valid() && fresh(table.BufferPool.Pages() - old(table.BufferPool.Pages()))
      ensures NoHigher(old(State()), State())
      ensures if r == Err(Deadlock) then OnePinMore(old(State()), State()) else PinsKept(old(State()), State())
      ensures forall rows :: IsListing(rows, old(SeenRows())) ==>
                Outcome(Setting(updates), old(Now()), Rows(), Filtered(rows, cond), made, r) &&
                RowsAfter(old(Rows()), Rows(), Filtered(rows, cond), made, updates, r)
      ensures NewRIDs(made, old(State()), State())
      ensures Others(State(), table.tableID) == Others(old(State()), table.tableID)
      ensures HasRoom(old(State())) && KeysUnique(old(Rows()), keys, show) ==> KeysUnique(Rows(), keys, show)
    {
      hide RowsAfter, BP.BufferPool.State, HasRoom, Used, Live, Rooms, PoolOk, HeapOk, OnePinMore, PinsKept, NoHigher;
      hide Table, Seen;
      hide Others;
      hide KeysUnique, Filtered, IsListing, NewRIDs, Ready, CanUpdate, UpdatesFit, Outcome, Unseen;
      ghost var start, seen := State(), SeenRows();
      var matched := Matching(cond);
      ghost var rows :| IsListing(rows, seen) && matched == Filtered(rows, cond);
      MatchedReady(start, table.tableID, rows, cond, Setting(updates));
      UnseenTable(start, State(), table.tableID, table.Schema);
      OneOutcome(seen, rows, cond);
      r, made := UpdateRows(matched, updates, start);
      NewlyMade(made, start, State(), table.tableID, table.Schema);
      OutcomeRows(Setting(updates), Snap(start, table.tableID, table.Schema), Rows(), matched, made, r);
      if HasRoom(start) && KeysUnique(Table(start, table.tableID, table.Schema), keys, show) {
        AllSeen(start, table.tableID, table.Schema);
        OutcomeKeepsUnique(Setting(updates), Snap(start, table.tableID, table.Schema), Rows(), matched, made, r);
      }
    }

    /** DROP TABLE: the pages of the table that can be fetched become blank, and everything is written to the file. */
    method ExecuteDrop() returns (ok: bool)
      requires Valid()
      modifies table.BufferPool, table.BufferPool.frames, table.BufferPool.disk, table.BufferPool.Pages()
      ensures Valid() && fresh(table.BufferPool.Pages() - old(table.BufferPool.Pages()))
      ensures ok && PinsKept(old(State()), State()) && Clears(old(State()), State(), table.tableID)
      ensures Rows() == imap rid | rid in old(Rows()) && rid !in old(SeenRows()) :: old(Rows())[rid]
      ensures HasRoom(old(State())) ==> Rows() == imap[]
      ensures Others(State(), table.tableID) == Others(old(State()), table.tableID)
      ensures forall capacity :: Survives(State(), capacity)
    {
      hide BP.BufferPool.State, HasRoom, Used, Live, PoolOk, HeapOk, PinsKept, NoHigher, Table, Seen, Others;
      hide Clears, Survives;
      ghost var start := State();
      ok := table.ClearPagesByTableID();
      ghost var p := State();
      if !ok {
        return;
      }
      ClearedTable(start, p, table.tableID, table.Schema);
      FlushCarries(p);
      FlushPins(p);
      table.BufferPool.FlushAll();
      UnseenFlush(p, table.tableID, table.Schema);
      PinsKeptOn(start, p, State());
      ClearsOn(start, p, State(), table.tableID);
      if HasRoom(start) {
        AllSeen(start, table.tableID, table.Schema);
      }
    }
  }

  /**
   Update the only row of a new database: exactly if its two versions do not fit one page together the
   statement fails, and the row is lost; it panics or, mostly, hangs.
   */
  method UpdateOnlyRow(capacity: nat, name: string, c: Change, values: seq<Value>)
    returns (ex: Executor, r: Result<nat>)
    requires capacity > 0 && |c.keys| == |c.schema| > 0 && Typed(values, c.schema) && UpdatesFit(c.updates, c.schema)
    requires |Encode(values, c.schema)| <= MAX_ROW
    ensures ex.Valid()
    ensures var row := Row(RID(1, 0), values); var left := MAX_ROW - |Encode(values, c.schema)|;
            r == if |NewBytes(c, row)| + SLOT_SIZE <= left then Ok(1) else Err(Failure(left, NewBytes(c, row)))
    ensures r.Err? ==> ex.Rows() == imap[]
    ensures r.Ok? ==> exists rid, values' :: ex.Rows() == imap[rid := values'] && Becomes(values, values', c.updates)
  {
    hide RowsAfter, Becomes, PoolOk, HeapOk, Typed, Encode, UpdatesFit, Table, Seen, Live, Used, Rooms, Below, HasRoom;
    hide PinsKept, Outcome;
    hide IsListing, Free, KeysUnique, BP.BufferPool.State, Others, Reason, NewValues;
    TypedLength(values, c.schema);
    var table := NewTable(capacity, name, c.schema);
    ex := new Executor(table, c.keys, c.show);
    ghost var start := ex.State();
    NoRows(start, table.tableID, c, values);
    var inserted := ex.ExecuteInsert(values);
    ghost var p, rid := ex.State(), inserted.value;
    ghost var row := Row(rid, values);
    StillRoom(start, p);
    AllSeen(p, table.tableID, c.schema);
    var always := _ => true;
    OneListed(row, always);
    ghost var now := ex.Now();
    assert now.seen == imap[rid := values];
    MatchedReady(p, table.tableID, [row], always, c);
    ghost var made;
    r, made := ex.ExecuteUpdate(always, c.updates);
    assert ex.Setting(c.updates) == c;
    OnlyRowOutcome(c, now, ex.Rows(), row, made, r);
    if r.Ok? {
      NewValuesAre(values, c.updates, |c.updates|);
      assert c.updates[..|c.updates|] == c.updates;
      assert ex.Rows() == imap[made[0] := NewValues(values, c.updates, |c.updates|)];
    }
  }

  /** Writing a text over itself hangs, and loses it, exactly if it has more than 2025 bytes; 4061 fit a page. */
  method RewriteOnlyText(capacity: nat, name: string, show: Value -> string, text: seq<Byte>)
    returns (ex: Executor, r: Result<nat>)
    requires capacity > 0 && |text| <= 4061
    ensures ex.Valid()
    ensures |text| <= 2025 ==> r == Ok(1) && exists rid :: ex.Rows() == imap[rid := [TextValue(text)]]
    ensures |text| > 2025 ==> r == Err(Deadlock) && ex.Rows() == imap[]
  {
    hide Encode, Decode, Table, BP.BufferPool.State, HeapOk;
    var c := Change([], [TypeText], [false], show);
    LongTextIsCut(text);
    ex, r := UpdateOnlyRow(capacity, name, c, [TextValue(text)]);
    NothingSet([TextValue(text)]);
  }

  lemma NothingSet(values: seq<Value>)
    ensures forall values' :: Becomes(values, values', []) ==> values' == values
  {
    forall values' | Becomes(values, values', []) ensures values' == values {
      assert forall k: nat, i: nat :: !SetsLast([], k, i);
    }
  }

  lemma AllTyped(p: Pool, t: nat, schema: Schema)
    requires HeapOk(p)
    ensures forall rid :: rid in Table(p, t, schema) ==> Typed(Table(p, t, schema)[rid], schema)
    ensures forall rid :: rid in Seen(p, t, schema) ==> Typed(Seen(p, t, schema)[rid], schema)
  {
    hide HeapOk, Live;
  }

  /** Nothing changed that a client sees. */
  ghost predicate Unseen(p: Pool, p': Pool) {
    Carries(p, p') && PinsKept(p, p') && NoHigher(p, p')
  }

  lemma UnseenSelf(p: Pool)
    requires HeapOk(p)
    ensures Unseen(p, p)
  {
    CarriesSelf(p);
    PinsKeptSelf(p);
    NoHigherSelf(p);
  }

  lemma UnseenOn(p: Pool, p': Pool, p'': Pool)
    requires Unseen(p, p') && Unseen(p', p'')
    ensures Unseen(p, p'')
  {
    hide PinsKept, NoHigher, SameHoldings;
    CarriesParts(p, p');
    CarriesParts(p', p'');
    CarriesOn(p, p', p'');
    PinsKeptOn(p, p', p'');
    NoHigherAgain(p, p', p'');
  }

  lemma UnseenRoom(p: Pool, p': Pool)
    requires Unseen(p, p')
    ensures HasRoom(p) ==> HasRoom(p')
  {
  }

  lemma UnseenTable(p: Pool, p': Pool, t: nat, schema: Schema)
    requires Unseen(p, p')
    ensures HeapOk(p) && HeapOk(p') && PinsKept(p, p') && NoHigher(p, p') && Live(p') == Live(p) && Used(p') == Used(p)
    ensures Table(p', t, schema) == Table(p, t, schema) && Others(p', t) == Others(p, t) && Rooms(p') == Rooms(p)
    ensures Seen(p', t, schema) == Seen(p, t, schema) && Snap(p', t, schema) == Snap(p, t, schema)
  {
    hide Table, Others, Live, Used, Rooms, Fetchable, PinsKept, NoHigher, HeapOk, PoolOk, SameHoldings;
    CarriesParts(p, p');
    SameLive(p, p');
    SameTable(p, p', t, schema);
    forall pid ensures Fetchable(p', pid) <==> Fetchable(p, pid) {
      FetchableKept(p, p', pid);
    }
  }

  lemma NoHigherBelow(p: Pool, p': Pool)
    requires Unseen(p, p') && Below(p, PAGE_LIMIT - 1)
    ensures Below(p', PAGE_LIMIT - 1)
  {
    hide Carries, PinsKept;
  }

  lemma InsertedTable(p: Pool, p': Pool, r: Result<RID>, t: nat, values: seq<Value>, schema: Schema, keys: seq<bool>,
                      show: Value -> string)
    requires Typed(values, schema) && schema != [] && Inserted(p, p', r, t, Encode(values, schema))
    requires r.Ok? ==> |Encode(values, schema)| <= MAX_ROW
    ensures r.Ok? ==> r.value !in Used(p) && Used(p') == Used(p)[r.value := t]
    ensures r.Ok? ==> Table(p', t, schema) == Table(p, t, schema)[r.value := values]
    ensures r.Ok? ==> RoomTaken(Rooms(p), Rooms(p'), r.value.pageID, |Encode(values, schema)| + SLOT_SIZE)
    ensures r.Ok? ==> (KeysUnique(Table(p', t, schema), keys, show) <==>
                       KeysUnique(Table(p, t, schema), keys, show) &&
                         Free(Table(p, t, schema), keys, show, values, None))
    ensures r.Err? ==> Table(p', t, schema) == Table(p, t, schema)
    ensures Others(p', t) == Others(p, t)
  {
    hide HeapOk, Table, Others, Free, KeysUnique, Typed, Encode, Used, Live, Rooms, RoomTaken;
    if r.Err? {
      SameTable(p, p', t, schema);
    } else {
      UnusedRID(p, r.value, t, schema);
      EncodesToBytes(values, schema);
      StoredRow(p, p', t, schema, r.value, values);
      UniqueInsert(Table(p, t, schema), keys, show, values, r.value);
    }
  }

  lemma NeverDuplicate(room: int, bytes: seq<Byte>)
    ensures Reason(room, bytes) != DuplicateValue && Reason(room, bytes) != WrongColumnCount
  {
  }

  /** A row that a scan saw can be fetched. */
  lemma SeenIsLive(p: Pool, t: nat, schema: Schema, rid: RID)
    requires HeapOk(p) && rid in Seen(p, t, schema)
    ensures rid in Table(p, t, schema) && Seen(p, t, schema)[rid] == Table(p, t, schema)[rid]
    ensures PoolOk(p) && Fetchable(p, rid.pageID) && rid in Used(p) && Used(p)[rid] == t
    ensures rid in Live(p) && Live(p)[rid].owner == t && 1 <= rid.pageID < PAGE_LIMIT && rid.pageID < p.store.pageCount
  {
    hide Table, Live, Used, PoolOk, HeapOk, Fetchable;
    RowIsLive(p, t, schema, rid);
  }

  lemma SeenFrom(p: Pool, t: nat, schema: Schema, rows: seq<Row>)
    requires HeapOk(p) && OnlyFrom(rows, Seen(p, t, schema))
    ensures OnlyFrom(rows, Table(p, t, schema))
  {
    hide Table, HeapOk, Fetchable;
  }

  lemma SeenRemoved(p: Pool, p': Pool, t: nat, schema: Schema, rid: RID)
    requires HeapOk(p) && HeapOk(p') && PinsKept(p, p') && Table(p', t, schema) == Table(p, t, schema) - {rid}
    ensures Seen(p', t, schema) == Seen(p, t, schema) - {rid}
  {
    hide Table, HeapOk, PinsKept, Fetchable;
    HeapParts(p);
    HeapParts(p');
    forall pid ensures Fetchable(p', pid) <==> Fetchable(p, pid) {
      FetchableKept(p, p', pid);
    }
  }

  lemma SeenReplaced(p: Pool, p': Pool, t: nat, schema: Schema, rid: RID, next: RID, values: seq<Value>)
    requires HeapOk(p) && HeapOk(p') && PinsKept(p, p') && Fetchable(p, next.pageID)
    requires Table(p', t, schema) == (Table(p, t, schema) - {rid})[next := values]
    ensures Seen(p', t, schema) == (Seen(p, t, schema) - {rid})[next := values]
  {
    hide Table, HeapOk, PinsKept, Fetchable;
    HeapParts(p);
    HeapParts(p');
    forall pid ensures Fetchable(p', pid) <==> Fetchable(p, pid) {
      FetchableKept(p, p', pid);
    }
  }

  lemma UnusedRID(p: Pool, rid: RID, t: nat, schema: Schema)
    requires HeapOk(p) && rid !in Used(p)
    ensures rid !in Live(p) && rid !in Table(p, t, schema)
  {
    hide HeapOk, Held;
  }

  lemma EncodesToBytes(values: seq<Value>, schema: Schema)
    requires Typed(values, schema) && schema != []
    ensures Encode(values, schema) != []
  {
    EncodeParts(values, schema, 0);
  }

  lemma RowIsLive(p: Pool, t: nat, schema: Schema, rid: RID)
    requires HeapOk(p) && rid in Table(p, t, schema)
    ensures PoolOk(p) && rid in Used(p) && Used(p)[rid] == t && rid in Live(p) && Live(p)[rid].owner == t
    ensures 1 <= rid.pageID < PAGE_LIMIT && rid.pageID < p.store.pageCount
  {
    hide Decode, Held, PoolOk;
    CountedPage(p, rid);
  }

  lemma NoHigherWithin(p: Pool, p': Pool, pid: nat, p'': Pool)
    requires NoHigher(p, p') && Within(p', pid, p'') && pid < p'.store.pageCount
    ensures NoHigher(p, p'')
  {
  }

  lemma UniqueUnmatched(t: Contents, seen: Contents, cond: seq<Value> -> bool, keys: seq<bool>, show: Value -> string)
    ensures KeysUnique(t, keys, show) ==> KeysUnique(Unmatched(t, seen, cond), keys, show)
  {
    hide KeysUnique;
    if KeysUnique(t, keys, show) {
      UniqueSub(t, Unmatched(t, seen, cond), keys, show);
    }
  }

  lemma UpdateFreeNone(t: Contents, keys: seq<bool>, show: Value -> string, values: seq<Value>, rid: RID,
                       updates: seq<Update>)
    ensures UpdateFree(t, keys, show, values, rid, updates, 0)
  {
  }

  lemma UnseenParts(p: Pool, p': Pool)
    requires Unseen(p, p')
    ensures PoolOk(p) && PoolOk(p') && PinsKept(p, p') && NoHigher(p, p') && (HasRoom(p) ==> HasRoom(p'))
  {
  }

  /** A key is taken: the row stays. */
  lemma TakenRefused(p: Pool, p': Pool, row: Row, next: RID, t: nat, c: Change)
    requires Unseen(p, p') && CanUpdate(c, row) && HeapOk(p) && row.rid.pageID in Rooms(p)
    requires !UpdateFree(Seen(p, t, c.schema), c.keys, c.show, NewRow(c, row), row.rid, c.updates, |c.updates|)
    ensures HeapOk(p') && OneUpdated(c, Snap(p, t, c.schema), Snap(p', t, c.schema), row, next, Err(DuplicateValue))
  {
    hide HeapOk, Unseen, CanUpdate, Rooms, UpdateFree, Seen, Table;
    UnseenTable(p, p', t, c.schema);
  }

  lemma UpdatedTable(p: Pool, p': Pool, r: Result<()>, row: Row, t: nat, c: Change)
    requires HeapOk(p) && c.schema != [] && CanUpdate(c, row) && row.rid in Seen(p, t, c.schema)
    requires row.rid.pageID in Rooms(p) && Typed(NewRow(c, row), c.schema)
    requires PoolOk(p) && PoolOk(p') && (r != Err(Deadlock) ==> PinsKept(p, p'))
    requires Updated(p, p', r, row.rid, NewRow(c, row), c.schema)
    requires UpdateFree(Seen(p, t, c.schema), c.keys, c.show, NewRow(c, row), row.rid, c.updates, |c.updates|)
    ensures 1 <= row.rid.pageID < PAGE_LIMIT
    ensures var next := NextRID(p, row.rid.pageID);
            && OneUpdated(c, Snap(p, t, c.schema), Snap(p', t, c.schema), row, next, r)
            && (r.Ok? ==> next !in Used(p) && Used(p') == Used(p)[next := t])
    ensures r.Err? ==> Used(p') == Used(p)
    ensures Others(p', t) == Others(p, t)
  {
    hide PoolOk, HeapOk, Table, Seen, Others, UpdateFree, Typed, Encode, Used, Live, Rooms, RoomTaken, NewValues, Held;
    hide NextRID, Fetchable, PinsKept;
    var rid, values := row.rid, NewRow(c, row);
    SeenIsLive(p, t, c.schema, rid);
    TypedLength(values, c.schema);
    if r.Ok? {
      var next := NextRID(p, rid.pageID);
      NextOnPage(p, rid.pageID);
      UnusedRID(p, next, t, c.schema);
      EncodesToBytes(values, c.schema);
      RoomOf(p, rid);
      ReplacedRow(p, p', t, c.schema, rid, next, values);
      SeenReplaced(p, p', t, c.schema, rid, next, values);
    } else {
      RemovedRow(p, p', t, c.schema, rid);
    }
  }

  lemma TypedLength(values: seq<Value>, schema: Schema)
    requires Typed(values, schema)
    ensures |values| == |schema|
  {
  }

  lemma NextOnPage(p: Pool, pid: nat)
    requires HeapOk(p) && 1 <= pid < PAGE_LIMIT
    ensures NextRID(p, pid).pageID == pid
  {
  }

  lemma RoomOf(p: Pool, rid: RID)
    requires HeapOk(p) && rid in Live(p)
    ensures rid.pageID in Rooms(p) && Rooms(p)[rid.pageID] <= PAGE_SIZE
  {
    hide PoolOk, View, HeaderOf, RowsOf;
    assert PageInv(p, rid.pageID);
    HeaderInRange(View(p, rid.pageID));
  }

  /** RIDs handed out since: all different, none used before. */
  ghost predicate NewRIDs(made: seq<RID>, p: Pool, p': Pool) {
    && HeapOk(p) && HeapOk(p') && Distinct(made) && Used(p).Keys <= Used(p').Keys
    && forall i :: 0 <= i < |made| ==> made[i] !in Used(p) && made[i] in Used(p')
  }

  /** The rows an UPDATE goes through are rows of the table. */
  lemma MatchedReady(p: Pool, t: nat, rows: seq<Row>, cond: seq<Value> -> bool, c: Change)
    requires HeapOk(p) && IsListing(rows, Seen(p, t, c.schema)) && UpdatesFit(c.updates, c.schema)
    ensures Ready(c, Snap(p, t, c.schema), Filtered(rows, cond))
  {
    hide HeapOk, Table, Seen, Rooms, Live, Used, Typed, UpdatesFit, IsListing, Filtered, Ascending;
    var m := Filtered(rows, cond);
    MatchedAre(Seen(p, t, c.schema), rows, cond);
    SeenFrom(p, t, c.schema, m);
    AllTyped(p, t, c.schema);
    forall j | 0 <= j < |m| ensures m[j].rid.pageID in Rooms(p) {
      SeenIsLive(p, t, c.schema, m[j].rid);
      RoomOf(p, m[j].rid);
    }
  }

  lemma OneOutcome(t: Contents, rows: seq<Row>, cond: seq<Value> -> bool)
    requires IsListing(rows, t)
    ensures forall other :: IsListing(other, t) ==> Filtered(other, cond) == Filtered(rows, cond)
  {
    hide IsListing, Filtered;
    forall other | IsListing(other, t) ensures other == rows {
      ListingIsUnique(other, rows, t);
    }
  }

  lemma NoNewRIDs(p: Pool, p': Pool)
    requires HeapOk(p) && HeapOk(p') && Used(p') == Used(p)
    ensures NewRIDs([], p, p')
  {
    hide HeapOk;
  }

  lemma NewlyMade(made: seq<RID>, p: Pool, p': Pool, t: nat, schema: Schema)
    requires NewRIDs(made, p, p') && HeapOk(p)
    ensures Distinct(made)
    ensures forall i :: 0 <= i < |made| ==> made[i] !in Table(p, t, schema) && made[i] !in Seen(p, t, schema)
  {
    hide HeapOk, Table, Used;
    forall i | 0 <= i < |made| ensures made[i] !in Table(p, t, schema) {
      UnusedRID(p, made[i], t, schema);
    }
  }

  lemma SameUsedRIDs(made: seq<RID>, p: Pool, p': Pool, p'': Pool)
    requires NewRIDs(made, p, p') && HeapOk(p'') && Used(p'') == Used(p')
    ensures NewRIDs(made, p, p'')
  {
    hide HeapOk, Used;
  }

  lemma OneMoreMade(made: seq<RID>, next: RID, owner: nat, p: Pool, p': Pool, p'': Pool)
    requires NewRIDs(made, p, p') && HeapOk(p'') && next !in Used(p') && Used(p'') == Used(p')[next := owner]
    ensures NewRIDs(made + [next], p, p'')
  {
    hide HeapOk, Used;
  }

  /** Opening the file again, with any number of frames, finds the same rows and RIDs. */
  ghost predicate Survives(p: Pool, capacity: nat)
    requires HeapOk(p)
  {
    var p' := Reopened(p.store, capacity);
    HeapOk(p') && Live(p') == Live(p) && Used(p') == Used(p)
  }

  lemma FlushPins(p: Pool)
    requires PoolOk(p)
    ensures PoolOk(PoolModel.FlushAll(p)) && PinsKept(p, PoolModel.FlushAll(p))
  {
    hide PoolOk, FlushTo;
    FlushToOk(p, |p.frames|);
    var p' := PoolModel.FlushAll(p);
    assert SamePins(p, p');
    forall q ensures PinsOf(p', q) == PinsOf(p, q) {
      SamePinsOf(p, p', q);
    }
    if HasRoom(p) {
      var i :| 0 <= i < |p.frames| && p.frames[i].pins == 0;
      assert p'.frames[i].pins == 0;
    }
  }

  lemma UnseenFlush(p: Pool, t: nat, schema: Schema)
    requires HeapOk(p) && Carries(p, PoolModel.FlushAll(p))
    ensures var p' := PoolModel.FlushAll(p);
            && Table(p', t, schema) == Table(p, t, schema) && Others(p', t) == Others(p, t)
            && forall capacity :: Survives(p', capacity)
  {
    hide HeapOk, PoolModel.FlushAll, Table, Others, Live, Used;
    var p' := PoolModel.FlushAll(p);
    CarriesLive(p, p');
    SameTable(p, p', t, schema);
    forall capacity ensures Survives(p', capacity) {
      ReopenedRows(p, capacity);
    }
  }

  lemma ClearedTable(p: Pool, p': Pool, t: nat, schema: Schema)
    requires Clears(p, p', t)
    ensures HeapOk(p) && HeapOk(p') && Others(p', t) == Others(p, t)
    ensures Table(p', t, schema) ==
            imap rid | rid in Table(p, t, schema) && rid !in Seen(p, t, schema) :: Table(p, t, schema)[rid]
  {
    hide HeapOk, Held, Live, Used, Decode, Fetchable;
    ClearsRows(p, p', t);
  }

  lemma ClearsOn(p: Pool, p': Pool, p'': Pool, t: nat)
    requires Clears(p, p', t) && Carries(p', p'')
    ensures Clears(p, p'', t)
  {
    hide HeapOk, Held;
  }

  lemma PinMoreAt(p: Pool, p': Pool, pid: nat)
    requires PoolOk(p) && PoolOk(p') && LeftPinned(p, p', pid)
    ensures OnePinMore(p, p')
  {
    hide PoolOk, LeftPinned;
  }

  lemma PinMoreOn(p: Pool, p': Pool, p'': Pool)
    requires PoolOk(p) && PoolOk(p') && PoolOk(p'') && PinsKept(p, p') && OnePinMore(p', p'')
    ensures OnePinMore(p, p'')
  {
    hide PoolOk, PinsKept, LeftPinned;
    var pid :| LeftPinned(p', p'', pid);
    LeftPinnedOn(p, p', p'', pid);
  }

  lemma NoRows(p: Pool, t: nat, c: Change, values: seq<Value>)
    requires HeapOk(p) && Live(p) == imap[] && p.store.pageCount == 1 && p.pageMap == map[]
    ensures Table(p, t, c.schema) == imap[] && Seen(p, t, c.schema) == imap[] && Below(p, PAGE_LIMIT - 1)
    ensures Free(imap[], c.keys, c.show, values, None)
  {
    hide HeapOk, Live;
  }

  lemma StillRoom(p: Pool, p': Pool)
    requires PoolOk(p) && PoolOk(p') && PinsKept(p, p') && HasRoom(p)
    ensures HasRoom(p')
  {
    hide PoolOk, HasRoom;
  }

  lemma OneListed(row: Row, cond: seq<Value> -> bool)
    requires cond(row.values)
    ensures IsListing([row], imap[row.rid := row.values]) && Filtered([row], cond) == [row]
  {
    assert Listed([row], row.rid) by {
      assert [row][0].rid == row.rid;
    }
    assert [row][..0] == [] && [] + [row] == [row];
  }

  lemma OnlyRowOutcome(c: Change, s: Snapshot, t': Contents, row: Row, made: seq<RID>, r: Result<nat>)
    requires Outcome(c, s, t', [row], made, r) && CanUpdate(c, row) && row.rid.pageID in s.rooms
    requires s.all == s.seen == imap[row.rid := row.values]
    ensures var room := s.rooms[row.rid.pageID];
            r == if |NewBytes(c, row)| + SLOT_SIZE <= room then Ok(1) else Err(Failure(room, NewBytes(c, row)))
    ensures r.Err? ==> t' == imap[]
    ensures r.Ok? ==> |made| == 1 && t' == imap[made[0] := NewRow(c, row)]
  {
    hide NewBytes, NewValues, CanUpdate;
    assert UpdateFree(s.seen, c.keys, c.show, NewRow(c, row), row.rid, c.updates, |c.updates|);
    if made != [] {
      assert made[..0] == [];
    }
  }
}
