// The rows of a table, by their RIDs and as a scan lists them.
module TableModel {
  import opened Sequences
  import opened Bytes
  import opened Results
  import opened PageModel
  import opened PoolModel
  import opened RowModel
  import opened HeapModel

  /** The id of a table: a 32-bit hash of its name. */
  function HashString(name: string): (h: nat)
    ensures h < TWO32
  {
    if name == "" then 0 else (HashString(name[..|name| - 1]) * 31 + name[|name| - 1] as int) % TWO32
  }

  function Pow31(n: nat): nat {
    if n == 0 then 1 else 31 * Pow31(n - 1)
  }

  /** The characters of a name, each times a power of 31, the last one times 1. */
  function Weighted(name: string): nat {
    if name == "" then 0 else name[0] as int * Pow31(|name| - 1) + Weighted(name[1..])
  }

  /** The id is that sum, counted as a uint32. */
  lemma HashIsSum(name: string)
    ensures HashString(name) == Weighted(name) % TWO32
  {
    hide HashString, Weighted, Pow31;
    HashJoin("", name);
    HashesCollide();
    assert "" + name == name && 0 * Pow31(|name|) == 0;
  }

  lemma {:induction false} HashJoin(a: string, b: string)
    ensures HashString(a + b) == (HashString(a) * Pow31(|b|) + Weighted(b)) % TWO32
    decreases |b|
  {
    hide HashString, Weighted, Pow31;
    WeightedParts(b);
    PowParts(|b|);
    if b == "" {
      assert a + b == a;
    } else {
      HashAppend(a, b[0]);
      HashJoin(a + [b[0]], b[1..]);
      assert a + [b[0]] + b[1..] == a + b;
      JoinStep(HashString(a), b[0] as int, Pow31(|b| - 1), Weighted(b[1..]));
    }
  }

  lemma WeightedParts(b: string)
    ensures b == "" ==> Weighted(b) == 0
    ensures b != "" ==> Weighted(b) == b[0] as int * Pow31(|b| - 1) + Weighted(b[1..])
  {
    hide Pow31;
  }

  lemma PowParts(n: nat)
    ensures Pow31(n) == if n == 0 then 1 else 31 * Pow31(n - 1)
  {
  }

  lemma HashAppend(a: string, c: char)
    ensures HashString(a + [c]) == (HashString(a) * 31 + c as int) % TWO32
  {
    assert (a + [c])[..|a|] == a;
  }

  lemma JoinStep(h: nat, c: nat, p: nat, w: nat)
    ensures ((h * 31 + c) % TWO32 * p + w) % TWO32 == (h * (31 * p) + (c * p + w)) % TWO32
  {
    ModTimes(h * 31 + c, p, w);
    assert (h * 31 + c) * p == h * (31 * p) + c * p;
  }

  lemma ModTimes(x: nat, p: nat, y: nat)
    ensures (x % TWO32 * p + y) % TWO32 == (x * p + y) % TWO32
  {
    var q, m := x / TWO32, x % TWO32;
    assert x * p + y == m * p + y + q * p * TWO32 by {
      assert x == q * TWO32 + m;
      assert (q * TWO32 + m) * p == q * TWO32 * p + m * p;
      assert q * TWO32 * p == q * p * TWO32;
    }
    ModMore(m * p + y, q * p);
  }

  lemma {:induction false} ModMore(x: nat, q: nat)
    ensures (x + q * TWO32) % TWO32 == x % TWO32
    decreases q
  {
    if q > 0 {
      ModMore(x, q - 1);
      assert x + q * TWO32 == x + (q - 1) * TWO32 + TWO32;
    }
  }

  ghost predicate DifferAt(a: string, b: string, i: nat) {
    i < |a| == |b| && a[i] != b[i] && forall j :: 0 <= j < |a| && j != i ==> a[j] == b[j]
  }

  /** Names of one length that differ in one character have different ids: 31 is odd. */
  lemma {:induction false} NearNamesDiffer(a: string, b: string, i: nat)
    requires DifferAt(a, b, i)
    ensures HashString(a) != HashString(b)
    decreases |a|
  {
    var n := |a| - 1;
    if i < n {
      NearNamesDiffer(a[..n], b[..n], i);
      StepDiffers(HashString(a[..n]), HashString(b[..n]), a[n] as int);
    } else {
      assert a[..n] == b[..n];
      LastDiffers(HashString(a[..n]) * 31, a[n] as int, b[n] as int);
    }
  }

  lemma StepDiffers(h: nat, k: nat, c: nat)
    requires h < TWO32 && k < TWO32 && h != k
    ensures (h * 31 + c) % TWO32 != (k * 31 + c) % TWO32
  {
    var q := (h * 31 + c) / TWO32 - (k * 31 + c) / TWO32;
    var r := (h * 31 + c) % TWO32 - (k * 31 + c) % TWO32;
    assert 31 * (h - k) == TWO32 * q + r;
    assert 31 * 3186588639 == 23 * TWO32 + 1;
    assert h - k == TWO32 * (q * 3186588639 - 23 * (h - k)) + 3186588639 * r;
  }

  lemma LastDiffers(h: nat, c: nat, d: nat)
    requires c < TWO32 && d < TWO32 && c != d
    ensures (h + c) % TWO32 != (h + d) % TWO32
  {
  }

  /** Two names can have one id: tables are told apart only if theirs differ. The id of the empty name is 0. */
  lemma HashesCollide()
    ensures HashString("Aa") == HashString("BB") && HashString("") == 0
  {
    assert "Aa"[..1] == "A" && "A"[..0] == "" && "BB"[..1] == "B" && "B"[..0] == "";
    assert HashString("A") == 65 && HashString("B") == 66;
  }

  datatype Row = Row(rid: RID, values: seq<Value>)

  /** The live rows of table t that can be decoded, by their RIDs. */
  ghost function Table(p: Pool, t: nat, schema: Schema): imap<RID, seq<Value>>
    requires HeapOk(p)
  {
    imap rid: RID | rid in Live(p) && Live(p)[rid].owner == t && Decode(Live(p)[rid].bytes, schema).Ok? ::
      Decode(Live(p)[rid].bytes, schema).value
  }

  /** The rows of the table on pages that can be fetched: all of them if some frame has no pin. */
  ghost function Seen(p: Pool, t: nat, schema: Schema): imap<RID, seq<Value>>
    requires HeapOk(p)
  {
    imap rid: RID | rid in Table(p, t, schema) && Fetchable(p, rid.pageID) :: Table(p, t, schema)[rid]
  }

  lemma AllSeen(p: Pool, t: nat, schema: Schema)
    requires HeapOk(p) && HasRoom(p)
    ensures Seen(p, t, schema) == Table(p, t, schema)
  {
    hide HeapOk, Table;
  }

  predicate Before(a: RID, b: RID) {
    a.pageID < b.pageID || (a.pageID == b.pageID && a.slotID < b.slotID)
  }

  ghost predicate Ascending(rows: seq<Row>) {
    forall i, j :: 0 <= i < j < |rows| ==> Before(rows[i].rid, rows[j].rid)
  }

  ghost predicate OnlyFrom(rows: seq<Row>, table: imap<RID, seq<Value>>) {
    forall i :: 0 <= i < |rows| ==> rows[i].rid in table && rows[i].values == table[rows[i].rid]
  }

  ghost predicate Listed(rows: seq<Row>, rid: RID) {
    exists i :: 0 <= i < |rows| && rows[i].rid == rid
  }

  ghost predicate AllOf(rows: seq<Row>, table: imap<RID, seq<Value>>) {
    forall rid :: rid in table ==> Listed(rows, rid)
  }

  /** All rows of the table, each once, in the order of their RIDs. */
  ghost predicate IsListing(rows: seq<Row>, table: imap<RID, seq<Value>>) {
    Ascending(rows) && OnlyFrom(rows, table) && AllOf(rows, table)
  }

  /** A table has one listing. */
  lemma ListingIsUnique(rows: seq<Row>, other: seq<Row>, table: imap<RID, seq<Value>>)
    requires IsListing(rows, table) && IsListing(other, table)
    ensures rows == other
  {
    if |rows| <= |other| {
      SameFront(rows, other, table, |rows|);
      NoMore(rows, other, table);
    } else {
      SameFront(other, rows, table, |other|);
      NoMore(other, rows, table);
    }
  }

  lemma {:induction false} SameFront(rows: seq<Row>, other: seq<Row>, table: imap<RID, seq<Value>>, n: nat)
    requires IsListing(rows, table) && IsListing(other, table) && n <= |rows| && n <= |other|
    ensures rows[..n] == other[..n]
  {
    if n > 0 {
      SameFront(rows, other, table, n - 1);
      NotBefore(rows, other, table, n - 1);
      NotBefore(other, rows, table, n - 1);
    }
  }

  lemma NotBefore(rows: seq<Row>, other: seq<Row>, table: imap<RID, seq<Value>>, i: nat)
    requires IsListing(rows, table) && IsListing(other, table) && i < |rows| && i < |other| && rows[..i] == other[..i]
    ensures !Before(rows[i].rid, other[i].rid)
  {
    assert forall k :: 0 <= k < i ==> rows[..i][k] == rows[k] && other[..i][k] == other[k];
    assert Listed(other, rows[i].rid);
    var j :| 0 <= j < |other| && other[j].rid == rows[i].rid;
  }

  lemma NoMore(rows: seq<Row>, other: seq<Row>, table: imap<RID, seq<Value>>)
    requires IsListing(rows, table) && IsListing(other, table) && |rows| <= |other| && rows[..|rows|] == other[..|rows|]
    ensures rows == other
  {
    assert forall k :: 0 <= k < |rows| ==> rows[..|rows|][k] == rows[k] && other[..|rows|][k] == other[k];
    assert |rows| < |other| ==> Listed(rows, other[|rows|].rid);
  }

  /** The rows in the first n slots of a page that can be decoded. */
  function PageScan(slots: Rows, pid: nat, schema: Schema, n: nat): (rows: seq<Row>)
    requires n <= |slots|
  {
    if n == 0 then []
    else
      var rows := PageScan(slots, pid, schema, n - 1);
      if slots[n - 1].Some? && Decode(slots[n - 1].value, schema).Ok?
      then rows + [Row(RID(pid, n - 1), Decode(slots[n - 1].value, schema).value)]
      else rows
  }

  lemma {:induction false} PageScanLists(slots: Rows, pid: nat, schema: Schema, n: nat)
    requires n <= |slots|
    ensures var rows := PageScan(slots, pid, schema, n);
            && Ascending(rows)
            && (forall i :: 0 <= i < |rows| ==>
                  rows[i].rid.pageID == pid && rows[i].rid.slotID < n &&
                    SlotReads(slots, rows[i].rid.slotID, schema, rows[i].values))
            && (forall k, v :: 0 <= k < n && SlotReads(slots, k, schema, v) ==> Listed(rows, RID(pid, k)))
  {
    hide Decode;
    if n > 0 {
      PageScanLists(slots, pid, schema, n - 1);
      var front, rows := PageScan(slots, pid, schema, n - 1), PageScan(slots, pid, schema, n);
      forall k, v | 0 <= k < n && SlotReads(slots, k, schema, v) ensures Listed(rows, RID(pid, k)) {
        if k < n - 1 {
          ListedLonger(front, rows, RID(pid, k));
        } else {
          assert rows[|rows| - 1].rid == RID(pid, k);
        }
      }
    }
  }

  lemma ListedLonger(rows: seq<Row>, longer: seq<Row>, rid: RID)
    requires Listed(rows, rid) && rows <= longer
    ensures Listed(longer, rid)
  {
    var i :| 0 <= i < |rows| && rows[i].rid == rid;
    assert longer[i].rid == rid;
  }

  ghost predicate SlotReads(slots: Rows, k: nat, schema: Schema, values: seq<Value>) {
    k < |slots| && slots[k].Some? && Decode(slots[k].value, schema) == Ok(values)
  }

  /** The rows of the table before upto, ascending. */
  ghost predicate ListsUpTo(rows: seq<Row>, table: imap<RID, seq<Value>>, upto: RID) {
    && Ascending(rows) && OnlyFrom(rows, table)
    && (forall i :: 0 <= i < |rows| ==> Before(rows[i].rid, upto))
    && (forall rid :: rid in table && Before(rid, upto) ==> Listed(rows, rid))
  }

  lemma TableAt(p: Pool, t: nat, schema: Schema, rid: RID)
    requires HeapOk(p) && 1 <= rid.pageID < PAGE_LIMIT
    ensures var h := Held(p, rid.pageID);
            && (rid in Table(p, t, schema) ==>
               h.owner == t && SlotReads(h.rows, rid.slotID, schema, Table(p, t, schema)[rid]))
            && (forall v :: h.owner == t && SlotReads(h.rows, rid.slotID, schema, v) ==>
                  rid in Table(p, t, schema) && Table(p, t, schema)[rid] == v)
  {
    hide HeapOk, Held, Decode;
  }

  /** The rows of a page of the table go behind those of the pages before. */
  lemma PageListed(p: Pool, t: nat, schema: Schema, pid: nat, rows: seq<Row>)
    requires HeapOk(p) && 1 <= pid < PAGE_LIMIT && Fetchable(p, pid) && ListsUpTo(rows, Seen(p, t, schema), RID(pid, 0))
    ensures var h := Held(p, pid); var more := if h.owner == t then PageScan(h.rows, pid, schema, |h.rows|) else [];
            ListsUpTo(rows + more, Seen(p, t, schema), RID(pid + 1, 0))
  {
    hide HeapOk, Held, Decode, PageScan, Table, Fetchable;
    var h, table := Held(p, pid), Seen(p, t, schema);
    var more := if h.owner == t then PageScan(h.rows, pid, schema, |h.rows|) else [];
    PageScanLists(h.rows, pid, schema, |h.rows|);
    forall i | 0 <= i < |more| ensures more[i].rid in table && more[i].values == table[more[i].rid] {
      TableAt(p, t, schema, more[i].rid);
    }
    forall rid | rid in table && Before(rid, RID(pid + 1, 0)) ensures Listed(rows + more, rid) {
      if rid.pageID == pid {
        TableAt(p, t, schema, rid);
        assert rid == RID(pid, rid.slotID);
        ListedBehind(rows, more, rid);
      } else {
        ListedLonger(rows, rows + more, rid);
      }
    }
  }

  lemma ListedBehind(rows: seq<Row>, more: seq<Row>, rid: RID)
    requires Listed(more, rid)
    ensures Listed(rows + more, rid)
  {
    var i :| 0 <= i < |more| && more[i].rid == rid;
    assert (rows + more)[|rows| + i].rid == rid;
  }

  lemma PageSkipped(p: Pool, t: nat, schema: Schema, pid: nat, rows: seq<Row>)
    requires HeapOk(p) && !Fetchable(p, pid) && ListsUpTo(rows, Seen(p, t, schema), RID(pid, 0))
    ensures ListsUpTo(rows, Seen(p, t, schema), RID(pid + 1, 0))
  {
    hide HeapOk, Table;
  }

  /** No row lies on a page that was not handed out. */
  lemma ListedAll(p: Pool, t: nat, schema: Schema, rows: seq<Row>, n: nat)
    requires HeapOk(p) && n >= p.store.pageCount && ListsUpTo(rows, Seen(p, t, schema), RID(n, 0))
    ensures IsListing(rows, Seen(p, t, schema))
  {
    hide HeapOk, Held, Decode;
    forall rid | rid in Seen(p, t, schema) ensures rid.pageID < p.store.pageCount {
      CountedPage(p, rid);
    }
  }

  lemma CountedPage(p: Pool, rid: RID)
    requires HeapOk(p) && InUse(p, rid)
    ensures rid.pageID < p.store.pageCount
  {
    hide PoolOk, View, Blank, HeaderOf;
    assert PageInv(p, rid.pageID);
    BlankIs(rid.pageID);
  }
}
