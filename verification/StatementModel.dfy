// What the INSERT, UPDATE and DELETE statements do to a table, and when its keys stay unique.
module StatementModel {
  import opened Sequences
  import opened Bytes
  import opened Results
  import opened PageModel
  import opened PoolModel
  import opened SlottedPage
  import opened RowModel
  import opened HeapModel
  import opened TableModel

  type Contents = imap<RID, seq<Value>>

  /** Two values that count as the same: neither is null and both print alike. */
  predicate Clash(show: Value -> string, a: Value, b: Value) {
    a != Null && b != Null && show(a) == show(b)
  }

  /** Some row but the excepted one has a value in column k that is not null and prints as v does, nor is v null. */
  ghost predicate Taken(t: Contents, show: Value -> string, k: nat, v: Value, except: Option<RID>) {
    exists rid :: rid in t && Some(rid) != except && k < |t[rid]| && t[rid][k] != Null && v != Null &&
                  show(t[rid][k]) == show(v)
  }

  /** No key column of the values is taken. */
  ghost predicate Free(t: Contents, keys: seq<bool>, show: Value -> string, values: seq<Value>, except: Option<RID>) {
    forall k :: 0 <= k < |keys| && k < |values| && keys[k] ==> !Taken(t, show, k, values[k], except)
  }

  /** In a PRIMARY KEY or UNIQUE column all rows print differently, but for nulls. */
  ghost predicate KeysUnique(t: Contents, keys: seq<bool>, show: Value -> string) {
    forall r, r', k :: r in t && r' in t && r != r' && 0 <= k < |keys| && keys[k] && k < |t[r]| && k < |t[r']| ==>
      t[r][k] == Null || t[r'][k] == Null || show(t[r][k]) != show(t[r'][k])
  }

  lemma FreeNone(t: Contents, keys: seq<bool>, show: Value -> string, values: seq<Value>, except: Option<RID>)
    ensures Free(t, keys[..0], show, values, except)
  {
  }

  lemma FreeOneMore(t: Contents, keys: seq<bool>, show: Value -> string, values: seq<Value>, k: nat,
                    except: Option<RID>)
    requires k < |keys| == |values| && Free(t, keys[..k], show, values, except)
    requires keys[k] ==> !Taken(t, show, k, values[k], except)
    ensures Free(t, keys[..k + 1], show, values, except)
  {
    hide Taken;
  }

  lemma NotFree(t: Contents, keys: seq<bool>, show: Value -> string, values: seq<Value>, k: nat, except: Option<RID>)
    requires k < |keys| == |values| && keys[k] && Taken(t, show, k, values[k], except)
    ensures !Free(t, keys, show, values, except)
  {
    hide Taken;
  }

  /** A row more keeps the keys unique exactly if none of its keys is taken. */
  lemma UniqueInsert(t: Contents, keys: seq<bool>, show: Value -> string, values: seq<Value>, rid: RID)
    requires rid !in t
    ensures KeysUnique(t[rid := values], keys, show) <==> KeysUnique(t, keys, show) && Free(t, keys, show, values, None)
  {
    var t' := t[rid := values];
    if KeysUnique(t, keys, show) && Free(t, keys, show, values, None) {
      assert Free(t, keys, show, values, Some(rid));
      UniqueReplace(t, keys, show, values, rid, rid);
      assert t - {rid} == t;
    }
    if KeysUnique(t', keys, show) {
      UniqueSub(t', t, keys, show);
      forall k | 0 <= k < |keys| && k < |values| && keys[k] ensures !Taken(t, show, k, values[k], None) {
        forall r | r in t && k < |t[r]| ensures !Clash(show, t[r][k], values[k]) {
          assert r in t' && t'[r] == t[r] && t'[rid] == values;
        }
      }
    }
  }

  lemma UniqueReplace(t: Contents, keys: seq<bool>, show: Value -> string, values: seq<Value>, rid: RID, next: RID)
    requires KeysUnique(t, keys, show) && (next == rid || next !in t)
    requires Free(t, keys, show, values, Some(rid))
    ensures KeysUnique((t - {rid})[next := values], keys, show)
  {
    var t' := (t - {rid})[next := values];
    forall r, r', k | r in t' && r' in t' && r != r' && 0 <= k < |keys| && keys[k] && k < |t'[r]| && k < |t'[r']|
      ensures !Clash(show, t'[r][k], t'[r'][k])
    {
      if r == next {
        assert !Taken(t, show, k, values[k], Some(rid));
        assert t'[r'] == t[r'];
      } else if r' == next {
        assert !Taken(t, show, k, values[k], Some(rid));
        assert t'[r] == t[r];
      } else {
        assert t'[r] == t[r] && t'[r'] == t[r'];
      }
    }
  }

  lemma UniqueSub(t: Contents, t': Contents, keys: seq<bool>, show: Value -> string)
    requires KeysUnique(t, keys, show) && forall rid :: rid in t' ==> rid in t && t'[rid] == t[rid]
    ensures KeysUnique(t', keys, show)
  {
  }

  // ----- tables and the rows of others -----

  /** The live rows that belong to other tables than t. */
  ghost function Others(p: Pool, t: nat): imap<RID, TableRow>
    requires HeapOk(p)
  {
    imap rid | rid in Live(p) && Live(p)[rid].owner != t :: Live(p)[rid]
  }

  lemma OthersTable(p: Pool, p': Pool, t: nat, other: nat, schema: Schema)
    requires HeapOk(p) && HeapOk(p') && Others(p', t) == Others(p, t) && other != t
    ensures Table(p', other, schema) == Table(p, other, schema)
  {
    hide HeapOk, Live, Decode;
    forall rid ensures (rid in Live(p) && Live(p)[rid].owner == other) ==
      (rid in Live(p') && Live(p')[rid].owner == other)
                  ensures rid in Live(p) && Live(p)[rid].owner == other ==> Live(p')[rid] == Live(p)[rid]
    {
      assert rid in Others(p, t) <==> rid in Others(p', t);
    }
  }

  lemma SameTable(p: Pool, p': Pool, t: nat, schema: Schema)
    requires HeapOk(p) && HeapOk(p') && Live(p') == Live(p)
    ensures Table(p', t, schema) == Table(p, t, schema) && Others(p', t) == Others(p, t)
  {
    hide HeapOk, Live, Decode;
  }

  /** A table after a row was stored: the row reads back as it was given. */
  lemma StoredRow(p: Pool, p': Pool, t: nat, schema: Schema, rid: RID, values: seq<Value>)
    requires HeapOk(p) && HeapOk(p') && Typed(values, schema) && schema != [] && |Encode(values, schema)| < TWO16
    requires Live(p') == Live(p)[rid := TableRow(t, Encode(values, schema))] && rid !in Live(p)
    ensures Table(p', t, schema) == Table(p, t, schema)[rid := values] && Others(p', t) == Others(p, t)
  {
    hide HeapOk, Live, Decode, Encode, Typed;
    ShortRow(values, schema);
    RowReadsBack(values, schema);
  }

  lemma RemovedRow(p: Pool, p': Pool, t: nat, schema: Schema, rid: RID)
    requires HeapOk(p) && HeapOk(p') && Live(p') == Live(p) - {rid}
    ensures Table(p', t, schema) == Table(p, t, schema) - {rid}
    ensures rid in Live(p) && Live(p)[rid].owner == t ==> Others(p', t) == Others(p, t)
  {
    hide HeapOk, Live, Decode;
  }

  lemma ReplacedRow(p: Pool, p': Pool, t: nat, schema: Schema, rid: RID, next: RID, values: seq<Value>)
    requires HeapOk(p) && HeapOk(p') && Typed(values, schema) && schema != [] && |Encode(values, schema)| < TWO16
    requires rid in Live(p) && Live(p)[rid].owner == t && next !in Live(p)
    requires Live(p') == (Live(p) - {rid})[next := TableRow(t, Encode(values, schema))]
    ensures Table(p', t, schema) == (Table(p, t, schema) - {rid})[next := values] && Others(p', t) == Others(p, t)
  {
    hide HeapOk, Live, Decode, Encode, Typed;
    ShortRow(values, schema);
    RowReadsBack(values, schema);
  }

  // ----- filtering -----

  function Filtered(rows: seq<Row>, cond: seq<Value> -> bool): (r: seq<Row>) {
    if rows == [] then []
    else
      var front := Filtered(rows[..|rows| - 1], cond);
      if cond(rows[|rows| - 1].values) then front + [rows[|rows| - 1]] else front
  }

  /** A filter keeps exactly the rows that satisfy the condition, in order. */
  lemma {:induction false} FilteredIs(rows: seq<Row>, cond: seq<Value> -> bool)
    requires Ascending(rows)
    ensures Ascending(Filtered(rows, cond))
    ensures forall row :: row in Filtered(rows, cond) <==> row in rows && cond(row.values)
  {
    if rows != [] {
      var front, last := rows[..|rows| - 1], rows[|rows| - 1];
      FilteredIs(front, cond);
      assert rows == front + [last];
      var kept := Filtered(front, cond);
      forall i | 0 <= i < |kept| ensures Before(kept[i].rid, last.rid) {
        assert kept[i] in kept;
      }
    }
  }

  // ----- deleting -----

  ghost function WithoutFirst(t: Contents, rows: seq<Row>, n: nat): Contents
    requires n <= |rows|
  {
    imap rid | rid in t && !Listed(rows[..n], rid) :: t[rid]
  }

  lemma WithoutNone(t: Contents, rows: seq<Row>)
    ensures WithoutFirst(t, rows, 0) == t
  {
  }

  lemma WithoutOneMore(t: Contents, rows: seq<Row>, n: nat)
    requires n < |rows| && Ascending(rows) && rows[n].rid in t
    ensures rows[n].rid in WithoutFirst(t, rows, n)
    ensures WithoutFirst(t, rows, n + 1) == WithoutFirst(t, rows, n) - {rows[n].rid}
  {
    forall rid ensures Listed(rows[..n + 1], rid) <==> Listed(rows[..n], rid) || rid == rows[n].rid {
      ListedOneMore(rows, n, rid);
    }
  }

  /** The rows without those seen that satisfy a condition. */
  ghost function Unmatched(t: Contents, seen: Contents, cond: seq<Value> -> bool): Contents {
    imap rid | rid in t && !(rid in seen && cond(seen[rid])) :: t[rid]
  }

  lemma WithoutMatched(t: Contents, seen: Contents, rows: seq<Row>, cond: seq<Value> -> bool)
    requires IsListing(rows, seen)
    ensures var m := Filtered(rows, cond); WithoutFirst(t, m, |m|) == Unmatched(t, seen, cond)
  {
    var m := Filtered(rows, cond);
    assert m[..|m|] == m;
    MatchedAre(seen, rows, cond);
    forall rid | rid in seen && cond(seen[rid]) ensures Listed(m, rid) {
      assert Listed(rows, rid);
      var i :| 0 <= i < |rows| && rows[i].rid == rid;
      FilteredIs(rows, cond);
      assert rows[i] in m;
    }
  }

  /** The matched rows are rows of the table that satisfy the condition, in order. */
  lemma MatchedAre(t: Contents, rows: seq<Row>, cond: seq<Value> -> bool)
    requires IsListing(rows, t)
    ensures var m := Filtered(rows, cond); Ascending(m) && OnlyFrom(m, t)
    ensures var m := Filtered(rows, cond); forall j :: 0 <= j < |m| ==> cond(t[m[j].rid])
  {
    FilteredIs(rows, cond);
    var m := Filtered(rows, cond);
    forall j | 0 <= j < |m| ensures m[j] in rows && cond(m[j].values) {
      assert m[j] in m;
    }
  }

  // ----- updating -----

  /** SET column = value; None for an unknown column, or for a value that cannot be parsed for it. */
  datatype Update = Update(column: Option<nat>, value: Option<Value>)

  predicate UpdateFits(u: Update, schema: Schema) {
    u.column.Some? ==> u.column.value < |schema| && (u.value.Some? ==> HasType(u.value.value, schema[u.column.value]))
  }

  predicate UpdatesFit(updates: seq<Update>, schema: Schema) {
    forall i :: 0 <= i < |updates| ==> UpdateFits(updates[i], schema)
  }

  /** The values of a row after the first n updates. */
  function NewValues(values: seq<Value>, updates: seq<Update>, n: nat): (r: seq<Value>)
    requires n <= |updates|
    ensures |r| == |values|
  {
    if n == 0 then values
    else
      var r, u := NewValues(values, updates, n - 1), updates[n - 1];
      if u.column.Some? && u.value.Some? && u.column.value < |r| then r[u.column.value := u.value.value] else r
  }

  lemma {:induction false} NewValuesTyped(values: seq<Value>, updates: seq<Update>, n: nat, schema: Schema)
    requires n <= |updates| && Typed(values, schema) && UpdatesFit(updates, schema)
    ensures Typed(NewValues(values, updates, n), schema)
  {
    if n > 0 {
      NewValuesTyped(values, updates, n - 1, schema);
      assert UpdateFits(updates[n - 1], schema);
    }
  }

  /** The i-th of the updates gives column k a value, and no later one does. */
  ghost predicate SetsLast(updates: seq<Update>, k: nat, i: nat) {
    && i < |updates| && updates[i].column == Some(k) && updates[i].value.Some?
    && forall j :: i < j < |updates| && updates[j].column == Some(k) ==> updates[j].value.None?
  }

  /** What SET promises: a column has the value last given to it, and its old one if it was given none. */
  ghost predicate Becomes(values: seq<Value>, values': seq<Value>, updates: seq<Update>) {
    && |values'| == |values|
    && forall k :: 0 <= k < |values| ==>
         && (forall i: nat :: SetsLast(updates, k, i) ==> values'[k] == updates[i].value.value)
         && ((forall i: nat :: !SetsLast(updates, k, i)) ==> values'[k] == values[k])
  }

  lemma {:induction false} NewValuesAre(values: seq<Value>, updates: seq<Update>, n: nat)
    requires n <= |updates|
    ensures Becomes(values, NewValues(values, updates, n), updates[..n])
  {
    if n > 0 {
      NewValuesAre(values, updates, n - 1);
      var u, front, all := updates[n - 1], updates[..n - 1], updates[..n];
      assert all == front + [u];
      var r := NewValues(values, updates, n);
      forall k | 0 <= k < |values|
        ensures forall i: nat :: SetsLast(all, k, i) ==> r[k] == all[i].value.value
        ensures (forall i: nat :: !SetsLast(all, k, i)) ==> r[k] == values[k]
      {
        if u.column == Some(k) && u.value.Some? {
          assert SetsLast(all, k, n - 1);
        } else {
          forall i: nat ensures SetsLast(all, k, i) <==> SetsLast(front, k, i) {
          }
        }
      }
    }
  }

  lemma {:induction false} SomeSetsLast(updates: seq<Update>, k: nat, n: nat) returns (i: Option<nat>)
    requires n <= |updates| && forall j :: n <= j < |updates| && updates[j].column == Some(k) ==> updates[j].value.None?
    ensures i.Some? ==> SetsLast(updates, k, i.value)
    ensures i.None? ==> forall j: nat :: !SetsLast(updates, k, j)
  {
    if n == 0 {
      i := None;
    } else if updates[n - 1].column == Some(k) && updates[n - 1].value.Some? {
      i := Some(n - 1);
    } else {
      i := SomeSetsLast(updates, k, n - 1);
    }
  }

  /** There is one such row. */
  lemma BecomesOne(values: seq<Value>, a: seq<Value>, b: seq<Value>, updates: seq<Update>)
    requires Becomes(values, a, updates) && Becomes(values, b, updates)
    ensures a == b
  {
    forall k | 0 <= k < |a| ensures a[k] == b[k] {
      var i := SomeSetsLast(updates, k, |updates|);
    }
  }

  ghost predicate Names(updates: seq<Update>, n: nat, k: nat)
    requires n <= |updates|
  {
    exists i :: 0 <= i < n && updates[i].column == Some(k)
  }

  lemma {:induction false} OtherColumnsStay(values: seq<Value>, updates: seq<Update>, n: nat, k: nat)
    requires n <= |updates| && k < |values| && !Names(updates, n, k)
    ensures NewValues(values, updates, n)[k] == values[k]
  {
    if n > 0 {
      assert updates[n - 1].column != Some(k);
      OtherColumnsStay(values, updates, n - 1, k);
    }
  }

  /** The key columns named by the first n updates are not taken by another row. */
  ghost predicate UpdateFree(t: Contents, keys: seq<bool>, show: Value -> string, values: seq<Value>, rid: RID,
                             updates: seq<Update>, n: nat)
    requires n <= |updates|
  {
    forall k :: 0 <= k < |keys| && k < |values| && keys[k] && Names(updates, n, k) ==>
      !Taken(t, show, k, values[k], Some(rid))
  }

  /** Checking the named columns is enough: in the others the row keeps the values it had. */
  lemma UpdateKeepsFree(t: Contents, keys: seq<bool>, show: Value -> string, rid: RID, updates: seq<Update>)
    requires KeysUnique(t, keys, show) && rid in t
    requires UpdateFree(t, keys, show, NewValues(t[rid], updates, |updates|), rid, updates, |updates|)
    ensures Free(t, keys, show, NewValues(t[rid], updates, |updates|), Some(rid))
  {
    var values := NewValues(t[rid], updates, |updates|);
    forall k | 0 <= k < |keys| && k < |values| && keys[k] ensures !Taken(t, show, k, values[k], Some(rid)) {
      if !Names(updates, |updates|, k) {
        OtherColumnsStay(t[rid], updates, |updates|, k);
      }
    }
  }

  lemma UpdateFreeOneMore(t: Contents, keys: seq<bool>, show: Value -> string, values: seq<Value>, rid: RID,
                          updates: seq<Update>, n: nat)
    requires n < |updates| && UpdateFree(t, keys, show, values, rid, updates, n)
    requires updates[n].column.Some? && updates[n].column.value < |keys| && updates[n].column.value < |values| &&
             keys[updates[n].column.value] ==>
               !Taken(t, show, updates[n].column.value, values[updates[n].column.value], Some(rid))
    ensures UpdateFree(t, keys, show, values, rid, updates, n + 1)
  {
    hide Taken;
    forall k | 0 <= k < |keys| && k < |values| && keys[k] && Names(updates, n + 1, k)
      ensures !Taken(t, show, k, values[k], Some(rid))
    {
      assert Names(updates, n, k) || updates[n].column == Some(k);
    }
  }

  lemma UpdateNotFree(t: Contents, keys: seq<bool>, show: Value -> string, values: seq<Value>, rid: RID,
                      updates: seq<Update>, n: nat)
    requires n < |updates| && updates[n].column.Some?
    requires updates[n].column.value < |keys| && updates[n].column.value < |values| && keys[updates[n].column.value]
    requires Taken(t, show, updates[n].column.value, values[updates[n].column.value], Some(rid))
    ensures !UpdateFree(t, keys, show, values, rid, updates, |updates|)
  {
    hide Taken;
    assert Names(updates, |updates|, updates[n].column.value);
  }

  /** The table after the first |made| of these rows were replaced by new ones under the RIDs made. */
  ghost function Remade(t: Contents, rows: seq<Row>, made: seq<RID>, updates: seq<Update>): Contents
    requires |made| <= |rows|
  {
    if made == [] then t
    else
      var n := |made| - 1;
      (Remade(t, rows, made[..n], updates) - {rows[n].rid})[made[n] := NewValues(rows[n].values, updates, |updates|)]
  }

  ghost predicate Distinct(made: seq<RID>) {
    forall i, j :: 0 <= i < j < |made| ==> made[i] != made[j]
  }

  /** Which rows the table then has: those not replaced as they were, and the new ones with the new values. */
  lemma {:induction false} RemadeIs(t: Contents, rows: seq<Row>, made: seq<RID>, updates: seq<Update>, rid: RID)
    requires |made| <= |rows| && Ascending(rows) && OnlyFrom(rows, t)
    requires Distinct(made) && forall i :: 0 <= i < |made| ==> made[i] !in t
    ensures rid in Remade(t, rows, made, updates) <==> (rid in t && !Listed(rows[..|made|], rid)) || rid in made
    ensures rid in t && !Listed(rows[..|made|], rid) ==> Remade(t, rows, made, updates)[rid] == t[rid]
    ensures forall i :: 0 <= i < |made| && made[i] == rid ==>
              Remade(t, rows, made, updates)[rid] == NewValues(rows[i].values, updates, |updates|)
  {
    hide NewValues;
    if made != [] {
      var n := |made| - 1;
      RemadeIs(t, rows, made[..n], updates, rid);
      assert made == made[..n] + [made[n]];
      assert Listed(rows[..|made|], rid) <==> Listed(rows[..n], rid) || rid == rows[n].rid by {
        ListedOneMore(rows, n, rid);
      }
    }
  }

  lemma ListedOneMore(rows: seq<Row>, n: nat, rid: RID)
    requires n < |rows|
    ensures Listed(rows[..n + 1], rid) <==> Listed(rows[..n], rid) || rid == rows[n].rid
  {
    assert rows[..n + 1] == rows[..n] + [rows[n]];
    if Listed(rows[..n], rid) { ListedLonger(rows[..n], rows[..n + 1], rid); }
    assert rows[..n + 1][n] == rows[n];
  }

  /** An UPDATE: what it sets, and the columns and keys of the table. */
  datatype Change = Change(updates: seq<Update>, schema: Schema, keys: seq<bool>, show: Value -> string)

  /** All rows of a table, those that a scan sees, and the free bytes of all pages. */
  datatype Snapshot = Snapshot(all: Contents, seen: Contents, rooms: imap<nat, nat>)

  ghost function Snap(p: Pool, t: nat, schema: Schema): Snapshot
    requires HeapOk(p)
  {
    Snapshot(Table(p, t, schema), Seen(p, t, schema), Rooms(p))
  }

  ghost predicate CanUpdate(c: Change, row: Row) {
    Typed(row.values, c.schema) && UpdatesFit(c.updates, c.schema)
  }

  ghost function NewRow(c: Change, row: Row): seq<Value> {
    NewValues(row.values, c.updates, |c.updates|)
  }

  ghost function NewBytes(c: Change, row: Row): seq<Byte>
    requires CanUpdate(c, row)
  {
    NewValuesTyped(row.values, c.updates, |c.updates|, c.schema);
    Encode(NewRow(c, row), c.schema)
  }

  /** Why a row is not updated: a key is taken, or its new version does not fit the free bytes of its page. */
  ghost function Refusal(c: Change, seen: Contents, room: int, row: Row): Option<Error>
    requires CanUpdate(c, row)
  {
    if !UpdateFree(seen, c.keys, c.show, NewRow(c, row), row.rid, c.updates, |c.updates|) then Some(DuplicateValue)
    else if |NewBytes(c, row)| + SLOT_SIZE <= room then None
    else Some(Failure(room, NewBytes(c, row)))
  }

  ghost function Verdict(refusal: Option<Error>): Result<()> {
    if refusal.None? then Ok(()) else Err(refusal.value)
  }

  /** One row updated, or refused, or lost. */
  ghost predicate OneUpdated(c: Change, s: Snapshot, s': Snapshot, row: Row, next: RID, r: Result<()>)
    requires CanUpdate(c, row) && row.rid.pageID in s.rooms
  {
    && r == Verdict(Refusal(c, s.seen, s.rooms[row.rid.pageID], row))
    && match r
       case Ok(_) =>
         && next.pageID == row.rid.pageID &&
            RoomTaken(s.rooms, s'.rooms, row.rid.pageID, |NewBytes(c, row)| + SLOT_SIZE)
         && s'.all == (s.all - {row.rid})[next := NewRow(c, row)]
         && s'.seen == (s.seen - {row.rid})[next := NewRow(c, row)]
       case Err(e) => s'.all == (if e == DuplicateValue then s.all else s.all - {row.rid}) && s'.rooms == s.rooms
  }

  /** The bytes that the new versions of the first n rows take on a page. */
  ghost function Spent(c: Change, rows: seq<Row>, n: nat, pid: nat): nat
    requires n <= |rows| && forall j :: 0 <= j < n ==> CanUpdate(c, rows[j])
  {
    if n == 0 then 0
    else
      var before := Spent(c, rows, n - 1, pid);
      if rows[n - 1].rid.pageID == pid then before + |NewBytes(c, rows[n - 1])| + SLOT_SIZE else before
  }

  ghost predicate Ready(c: Change, s: Snapshot, rows: seq<Row>) {
    && Ascending(rows) && OnlyFrom(rows, s.seen) && OnlyFrom(rows, s.all)
    && forall j :: 0 <= j < |rows| ==> CanUpdate(c, rows[j]) && rows[j].rid.pageID in s.rooms
  }

  /** Why the next row is not updated, once the rows before it were replaced under the RIDs made. */
  ghost function RefusalAt(c: Change, s: Snapshot, rows: seq<Row>, made: seq<RID>): Option<Error>
    requires Ready(c, s, rows) && |made| < |rows|
  {
    var row := rows[|made|];
    Refusal(c, Remade(s.seen, rows, made, c.updates), s.rooms[row.rid.pageID] - Spent(c, rows, |made|, row.rid.pageID),
      row)
  }

  /** The first rows were replaced under the RIDs made, each on its page; none was refused. */
  ghost predicate Underway(c: Change, s: Snapshot, rows: seq<Row>, made: seq<RID>) {
    && Ready(c, s, rows) && |made| <= |rows|
    && forall j :: 0 <= j < |made| ==> made[j].pageID == rows[j].rid.pageID && RefusalAt(c, s, rows, made[..j]) == None
  }

  /** The state after the first rows were replaced. */
  ghost predicate Reached(c: Change, s: Snapshot, rows: seq<Row>, made: seq<RID>, s': Snapshot) {
    && Underway(c, s, rows, made)
    && s'.all == Remade(s.all, rows, made, c.updates) && s'.seen == Remade(s.seen, rows, made, c.updates)
    && s'.rooms.Keys == s.rooms.Keys && forall q :: q in s.rooms ==>
       s'.rooms[q] == s.rooms[q] - Spent(c, rows, |made|, q)
  }

  /**
   How an UPDATE of these rows ends: they are replaced one by one, until all are or one is refused; that
   one stays if a key is taken, and is lost otherwise.
   */
  ghost predicate Outcome(c: Change, s: Snapshot, t': Contents, rows: seq<Row>, made: seq<RID>, r: Result<nat>) {
    && Underway(c, s, rows, made)
    && var t := Remade(s.all, rows, made, c.updates);
       if |made| == |rows| then r == Ok(|rows|) && t' == t
       else
         var refusal := RefusalAt(c, s, rows, made);
         && refusal.Some? && r == Err(refusal.value)
         && t' == if refusal == Some(DuplicateValue) then t else t - {rows[|made|].rid}
  }

  lemma ReachedNone(c: Change, s: Snapshot, rows: seq<Row>)
    requires Ready(c, s, rows)
    ensures Reached(c, s, rows, [], s)
  {
  }

  lemma ReachedNext(c: Change, s: Snapshot, rows: seq<Row>, made: seq<RID>, s1: Snapshot, s2: Snapshot, next: RID,
                    r: Result<()>)
    requires Reached(c, s, rows, made, s1) && |made| < |rows| && rows[|made|].rid.pageID in s1.rooms
    requires CanUpdate(c, rows[|made|]) && OneUpdated(c, s1, s2, rows[|made|], next, r) && r.Ok?
    ensures Reached(c, s, rows, made + [next], s2)
  {
    hide NewBytes, NewRow, CanUpdate, UpdateFree, Ascending, OnlyFrom, Refusal, Underway;
    UnderwayNext(c, s, rows, made, s1, s2, next, r);
    RemadeNext(s.all, rows, made, c, next);
    RemadeNext(s.seen, rows, made, c, next);
    assert Ready(c, s, rows) by {
      UnderwayReady(c, s, rows, made);
    }
    forall q | q in s.rooms ensures s2.rooms[q] == s.rooms[q] - Spent(c, rows, |made| + 1, q) {
    }
  }

  lemma RemadeNext(t: Contents, rows: seq<Row>, made: seq<RID>, c: Change, next: RID)
    requires |made| < |rows|
    ensures Remade(t, rows, made + [next], c.updates) ==
            (Remade(t, rows, made, c.updates) - {rows[|made|].rid})[next := NewRow(c, rows[|made|])]
  {
    assert (made + [next])[..|made|] == made;
  }

  lemma UnderwayReady(c: Change, s: Snapshot, rows: seq<Row>, made: seq<RID>)
    requires Underway(c, s, rows, made)
    ensures Ready(c, s, rows)
  {
  }

  lemma UnderwayNext(c: Change, s: Snapshot, rows: seq<Row>, made: seq<RID>, s1: Snapshot, s2: Snapshot, next: RID,
                     r: Result<()>)
    requires Reached(c, s, rows, made, s1) && |made| < |rows| && rows[|made|].rid.pageID in s1.rooms
    requires CanUpdate(c, rows[|made|]) && OneUpdated(c, s1, s2, rows[|made|], next, r) && r.Ok?
    ensures Underway(c, s, rows, made + [next])
  {
    hide NewBytes, NewRow, CanUpdate, UpdateFree, Ascending, OnlyFrom, Refusal, Remade, Spent, Ready;
    var more := made + [next];
    forall j | 0 <= j < |more|
      ensures more[j].pageID == rows[j].rid.pageID && Ready(c, s, rows) && RefusalAt(c, s, rows, more[..j]) == None
    {
      assert more[..j] == made[..j];
      assert j < |made| ==> more[j] == made[j];
      assert j == |made| ==> made[..j] == made;
    }
  }

  lemma RefusedOutcome(c: Change, s: Snapshot, rows: seq<Row>, made: seq<RID>, s1: Snapshot, s2: Snapshot, next: RID,
                       e: Error)
    requires Reached(c, s, rows, made, s1) && |made| < |rows| && rows[|made|].rid.pageID in s1.rooms
    requires CanUpdate(c, rows[|made|]) && OneUpdated(c, s1, s2, rows[|made|], next, Err(e))
    ensures Outcome(c, s, s2.all, rows, made, Err(e))
  {
    hide NewRow, CanUpdate, Underway, Ready, Refusal, Remade, Spent;
    UnderwayReady(c, s, rows, made);
    assert Ready(c, s, rows) && |made| <= |rows|;
    var pid := rows[|made|].rid.pageID;
    assert s1.rooms[pid] == s.rooms[pid] - Spent(c, rows, |made|, pid);
  }

  lemma DoneOutcome(c: Change, s: Snapshot, rows: seq<Row>, made: seq<RID>, s': Snapshot)
    requires Reached(c, s, rows, made, s') && |made| == |rows|
    ensures Outcome(c, s, s'.all, rows, made, Ok(|rows|))
  {
    hide NewBytes, NewRow, CanUpdate, UpdateFree, Ascending, OnlyFrom;
  }

  /** The next row is still there, as it was listed. */
  lemma NextThere(c: Change, s: Snapshot, rows: seq<Row>, made: seq<RID>, s': Snapshot)
    requires Reached(c, s, rows, made, s') && |made| < |rows|
    requires Distinct(made) && forall i :: 0 <= i < |made| ==> made[i] !in s.all && made[i] !in s.seen
    ensures var row := rows[|made|];
            && row.rid in s'.all && s'.all[row.rid] == row.values && row.rid in s'.seen &&
               s'.seen[row.rid] == row.values
            && CanUpdate(c, row) && row.rid.pageID in s'.rooms
  {
    hide CanUpdate, Remade;
    RemadeIs(s.all, rows, made, c.updates, rows[|made|].rid);
    RemadeIs(s.seen, rows, made, c.updates, rows[|made|].rid);
  }

  /** An UPDATE that sees all rows keeps the keys unique, however it ends. */
  lemma OutcomeKeepsUnique(c: Change, s: Snapshot, t': Contents, rows: seq<Row>, made: seq<RID>, r: Result<nat>)
    requires Outcome(c, s, t', rows, made, r) && s.seen == s.all && KeysUnique(s.all, c.keys, c.show)
    requires Distinct(made) && forall i :: 0 <= i < |made| ==> made[i] !in s.all
    ensures KeysUnique(t', c.keys, c.show)
  {
    hide KeysUnique, Remade, RefusalAt, Ready;
    RemadeKeepsUnique(c, s, rows, made);
    UniqueLess(Remade(s.all, rows, made, c.updates), t', c.keys, c.show);
  }

  lemma UniqueLess(t: Contents, t': Contents, keys: seq<bool>, show: Value -> string)
    requires KeysUnique(t, keys, show) && (t' == t || exists rid :: t' == t - {rid})
    ensures KeysUnique(t', keys, show)
  {
    hide KeysUnique;
    UniqueSub(t, t', keys, show);
  }

  lemma {:induction false} RemadeKeepsUnique(c: Change, s: Snapshot, rows: seq<Row>, made: seq<RID>)
    requires Underway(c, s, rows, made) && s.seen == s.all && KeysUnique(s.all, c.keys, c.show)
    requires Distinct(made) && forall i :: 0 <= i < |made| ==> made[i] !in s.all
    ensures KeysUnique(Remade(s.all, rows, made, c.updates), c.keys, c.show)
  {
    hide KeysUnique, Refusal, CanUpdate, NewRow, Underway, Spent;
    if made != [] {
      UnderwayBefore(c, s, rows, made);
      var n := |made| - 1;
      var before, row := made[..n], rows[n];
      RemadeKeepsUnique(c, s, rows, before);
      var t := Remade(s.all, rows, before, c.updates);
      RemadeIs(s.all, rows, before, c.updates, row.rid);
      RemadeIs(s.all, rows, before, c.updates, made[n]);
      UpdateKeepsUnique(c, t, s.rooms[row.rid.pageID] - Spent(c, rows, n, row.rid.pageID), row, made[n]);
      RemadeNext(s.all, rows, before, c, made[n]);
      assert made == before + [made[n]];
    }
  }

  lemma UnderwayBefore(c: Change, s: Snapshot, rows: seq<Row>, made: seq<RID>)
    requires Underway(c, s, rows, made) && made != []
    ensures var before := made[..|made| - 1];
            |made| <= |rows| && Underway(c, s, rows, before) && Ready(c, s, rows) &&
              RefusalAt(c, s, rows, before) == None
  {
    hide Refusal, CanUpdate, Ascending, OnlyFrom, Spent, Remade;
    var before := made[..|made| - 1];
    assert forall j :: 0 <= j < |before| ==> before[..j] == made[..j];
  }

  lemma UpdateKeepsUnique(c: Change, t: Contents, room: int, row: Row, next: RID)
    requires KeysUnique(t, c.keys, c.show) && row.rid in t && t[row.rid] == row.values && next !in t
    requires CanUpdate(c, row) && Refusal(c, t, room, row) == None
    ensures KeysUnique((t - {row.rid})[next := NewRow(c, row)], c.keys, c.show)
  {
    hide KeysUnique, UpdateFree, Free, NewBytes, NewValues;
    UpdateKeepsFree(t, c.keys, c.show, row.rid, c.updates);
    UniqueReplace(t, c.keys, c.show, NewRow(c, row), row.rid, next);
  }

  /** Which rows there are after an UPDATE: the new ones with what SET promises, and those not replaced or lost. */
  ghost predicate RowsAfter(t: Contents, t': Contents, rows: seq<Row>, made: seq<RID>, updates: seq<Update>,
                            r: Result<nat>) {
    && |made| <= |rows|
    && (forall j :: 0 <= j < |made| ==> made[j] in t' && Becomes(rows[j].values, t'[made[j]], updates))
    && (forall rid :: rid in t' && rid !in made ==> rid in t && t'[rid] == t[rid])
    && (forall rid :: rid in t && rid !in made ==>
          (rid in t' <==> !Listed(rows[..|made|], rid) &&
                          !(r.Err? && r.error != DuplicateValue && |made| < |rows| && rid == rows[|made|].rid)))
  }

  lemma OutcomeRows(c: Change, s: Snapshot, t': Contents, rows: seq<Row>, made: seq<RID>, r: Result<nat>)
    requires Outcome(c, s, t', rows, made, r)
    requires Distinct(made) && forall i :: 0 <= i < |made| ==> made[i] !in s.all
    ensures RowsAfter(s.all, t', rows, made, c.updates, r)
  {
    hide Remade, RefusalAt, CanUpdate, Becomes, NewValues, Listed;
    assert |made| <= |rows| && Ascending(rows) && OnlyFrom(rows, s.all);
    var t := Remade(s.all, rows, made, c.updates);
    forall rid ensures rid in t <==> (rid in s.all && !Listed(rows[..|made|], rid)) || rid in made
               ensures rid in t && rid !in made ==> t[rid] == s.all[rid] {
      RemadeIs(s.all, rows, made, c.updates, rid);
    }
    assert c.updates[..|c.updates|] == c.updates;
    forall j | 0 <= j < |made| ensures made[j] in t && Becomes(rows[j].values, t[made[j]], c.updates) {
      RemadeIs(s.all, rows, made, c.updates, made[j]);
      NewValuesAre(rows[j].values, c.updates, |c.updates|);
    }
  }
}
