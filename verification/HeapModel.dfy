// Tables over the pool: which page holds which rows of which table.
module HeapModel {
  import opened Sequences
  import opened Bytes
  import opened PageModel
  import opened PoolModel

  datatype RID = RID(pageID: nat, slotID: nat)

  /** The rows of a page, the table they belong to, and the free bytes; a page without rows belongs to nobody. */
  datatype Holding = Holding(owner: nat, rows: Rows, room: nat)

  ghost function HoldingOf(d: PageData): Holding
    requires WellFormed(d)
  {
    Holding(if RowsOf(d) == [] then 0 else HeaderOf(d).tableID, RowsOf(d), FreeSpace(d))
  }

  /** The free bytes of a new page. */
  const FULL_ROOM: nat := PAGE_SIZE - HEADER_SIZE

  /** What a new page holds. */
  const NOTHING := Holding(0, [], FULL_ROOM)

  /** The number of pages whose offsets in the file are int64 numbers. */
  const PAGE_LIMIT: nat := 0x8_0000_0000_0000

  ghost predicate PageOk(d: PageData, q: nat) {
    WellFormed(d) && HeaderOf(d).pageID == q && (RowsOf(d) == [] ==> FreeSpace(d) == FULL_ROOM)
  }

  /**
   What holds of every page at all times: cached and stored copies are well formed and carry their
   number; only a page without rows may be changed without being reported; unallocated pages are blank.
   */
  ghost predicate PageInv(p: Pool, q: nat)
    requires PoolOk(p)
  {
    && PageOk(View(p, q), q) && PageOk(StoreRead(p.store, q), q)
    && (Stale(p, q) ==> RowsOf(View(p, q)) == [] && RowsOf(StoreRead(p.store, q)) == [])
    && (q >= p.store.pageCount ==> View(p, q) == Blank(q) && StoreRead(p.store, q) == Blank(q))
  }

  /** All pages counted or cached are below n. */
  ghost predicate Below(p: Pool, n: nat) {
    p.store.pageCount <= n && forall pid :: pid in p.pageMap ==> pid < n
  }

  /** No cached page has a number that could make the page count wrap around. */
  ghost predicate Numbered(p: Pool) {
    Below(p, PAGE_LIMIT)
  }

  /** Page 0 is never handed out: it is new, or the zeros in front of the first page written. */
  ghost predicate PageZero(d: PageData) {
    d == Blank(0) || d == Zeros(PAGE_SIZE)
  }

  ghost predicate ZeroOk(p: Pool)
    requires PoolOk(p)
  {
    PageZero(View(p, 0)) && PageZero(StoreRead(p.store, 0))
  }

  ghost predicate HeapOk(p: Pool) {
    PoolOk(p) && Numbered(p) && ZeroOk(p) && forall q: nat :: 1 <= q < PAGE_LIMIT ==> PageInv(p, q)
  }

  ghost function Held(p: Pool, q: nat): Holding
    requires HeapOk(p) && 1 <= q < PAGE_LIMIT
  {
    assert PageInv(p, q);
    HoldingOf(View(p, q))
  }

  /** Two heaps in which every page holds the same rows for the same table. */
  ghost predicate SameHoldings(p: Pool, p': Pool) {
    HeapOk(p) && HeapOk(p') && forall q: nat :: 1 <= q < PAGE_LIMIT ==> Held(p', q) == Held(p, q)
  }

  ghost predicate Carries(p: Pool, p': Pool) {
    SameHoldings(p, p') && p.store.pageCount <= p'.store.pageCount
  }

  // ----- one page under each operation of the pool -----

  lemma EvictInv(p: Pool, i: nat, q: nat)
    requires PoolOk(p) && PoolModel.Occupied(p, i) && Numbered(p) && 1 <= q < PAGE_LIMIT && PageInv(p, q)
    ensures PoolOk(Evict(p, i)) && Numbered(Evict(p, i)) && Evict(p, i).store.pageCount >= p.store.pageCount
    ensures PageInv(Evict(p, i), q) && HoldingOf(View(Evict(p, i), q)) == HoldingOf(View(p, q))
  {
    hide StoreOk, StoreRead, HeaderOf, WellFormed, RowsOf, FreeSpace, Blank, Without, NoRepeats;
    EvictOk(p, i);
    var page := p.frames[i].page.value;
    WriteThenRead(p.store, page.id, page.data, q);
    if q in p.pageMap {
      assert Maps(p, q, p.pageMap[q]);
    }
  }

  lemma TouchInv(p: Pool, i: nat, q: nat)
    requires PoolOk(p) && PoolModel.Occupied(p, i) && Numbered(p) && 1 <= q < PAGE_LIMIT && PageInv(p, q)
    ensures PoolOk(Touch(p, i)) && Numbered(Touch(p, i)) && Touch(p, i).store == p.store
    ensures PageInv(Touch(p, i), q) && HoldingOf(View(Touch(p, i), q)) == HoldingOf(View(p, q))
  {
    hide StoreOk, StoreRead, HeaderOf, WellFormed, RowsOf, FreeSpace, Blank, Without, NoRepeats;
    TouchView(p, i, q);
    if q in p.pageMap {
      assert Maps(p, q, p.pageMap[q]);
    }
  }

  lemma LoadInv(p: Pool, pid: nat, i: nat, q: nat)
    requires PoolOk(p) && i < |p.frames| && p.frames[i].page.None? && pid !in p.pageMap
    requires Numbered(p) && pid < PAGE_LIMIT && 1 <= q < PAGE_LIMIT && PageInv(p, q)
    ensures PoolOk(Load(p, pid, i)) && Numbered(Load(p, pid, i)) && Load(p, pid, i).store == p.store
    ensures PageInv(Load(p, pid, i), q) && HoldingOf(View(Load(p, pid, i), q)) == HoldingOf(View(p, q))
  {
    hide StoreOk, StoreRead, HeaderOf, WellFormed, RowsOf, FreeSpace, Blank, NoRepeats;
    LoadView(p, pid, i, q);
    if q in p.pageMap {
      assert Maps(p, q, p.pageMap[q]);
    }
  }

  lemma FetchInv(p: Pool, pid: nat, q: nat)
    requires PoolOk(p) && Fetch(p, pid).Some? && Numbered(p) && pid < PAGE_LIMIT && 1 <= q < PAGE_LIMIT && PageInv(p, q)
    ensures var p' := Fetch(p, pid).value;
            && Numbered(p') && p'.store.pageCount >= p.store.pageCount
            && PageInv(p', q) && HoldingOf(View(p', q)) == HoldingOf(View(p, q))
  {
    hide PageInv, HoldingOf, Load, Touch, Evict, View, Numbered, VictimOf;
    if pid in p.pageMap {
      TouchInv(p, p.pageMap[pid], q);
    } else if FirstFree(p.frames, 0).Some? {
      LoadInv(p, pid, FirstFree(p.frames, 0).value, q);
    } else {
      var i := VictimOf(p).value;
      EvictInv(p, i, q);
      EvictOk(p, i);
      LoadInv(Evict(p, i), pid, i, q);
    }
  }

  lemma UnpinInv(p: Pool, pid: nat, dirty: bool, q: nat)
    requires PoolOk(p) && Numbered(p) && 1 <= q < PAGE_LIMIT && PageInv(p, q)
    ensures PoolOk(Unpin(p, pid, dirty)) && Numbered(Unpin(p, pid, dirty)) && Unpin(p, pid, dirty).store == p.store
    ensures PageInv(Unpin(p, pid, dirty), q) && HoldingOf(View(Unpin(p, pid, dirty), q)) == HoldingOf(View(p, q))
  {
    hide StoreOk, StoreRead, HeaderOf, WellFormed, RowsOf, FreeSpace, Blank, NoRepeats;
    UnpinKeepsViews(p, pid, dirty, q);
    if q in p.pageMap {
      assert Maps(p, q, p.pageMap[q]);
    }
    if pid in p.pageMap {
      assert Maps(p, pid, p.pageMap[pid]);
    }
  }

  /** Changing the bytes of a page: reported, or back to what is stored, or without any rows. */
  ghost predicate MayChange(p: Pool, pid: nat, data: PageData, dirty: bool)
    requires PoolOk(p)
  {
    && pid in p.pageMap && 1 <= pid < p.store.pageCount && PageOk(data, pid)
    && (dirty || data == StoreRead(p.store, pid) ||
        (RowsOf(data) == [] && PageOk(StoreRead(p.store, pid), pid) && RowsOf(StoreRead(p.store, pid)) == []))
  }

  lemma ChangedInv(p: Pool, pid: nat, data: PageData, dirty: bool, q: nat)
    requires PoolOk(p) && Numbered(p) && 1 <= q < PAGE_LIMIT && PageInv(p, q) && MayChange(p, pid, data, dirty)
    ensures var p' := Changed(p, pid, data, dirty);
            && PoolOk(p') && Numbered(p') && p'.store == p.store && PageInv(p', q)
            && HoldingOf(View(p', q)) == if q == pid then HoldingOf(data) else HoldingOf(View(p, q))
  {
    hide StoreOk, StoreRead, HeaderOf, RowsOf, FreeSpace, Blank, NoRepeats;
    ChangedView(p, pid, data, dirty, q);
    if q in p.pageMap {
      assert Maps(p, q, p.pageMap[q]);
    }
    assert Maps(p, pid, p.pageMap[pid]);
  }

  function Allocated(p: Pool): Pool {
    p.(store := p.store.(pageCount := p.store.pageCount + 1))
  }

  lemma AllocatedInv(p: Pool, q: nat)
    requires PoolOk(p) && Numbered(p) && 1 <= q < PAGE_LIMIT && PageInv(p, q) && p.store.pageCount < PAGE_LIMIT
    ensures PoolOk(Allocated(p)) && Numbered(Allocated(p)) && PageInv(Allocated(p), q)
    ensures View(Allocated(p), q) == View(p, q)
  {
    hide HeaderOf, WellFormed, RowsOf, FreeSpace, Blank, NoRepeats;
    var p' := Allocated(p);
    forall i: nat ensures PoolModel.Occupied(p', i) == PoolModel.Occupied(p, i) {
    }
    forall r | r in p'.pageMap ensures Maps(p', r, p'.pageMap[r]) {
      assert Maps(p, r, p.pageMap[r]);
    }
    assert forall r: nat :: StoreRead(p'.store, r) == StoreRead(p.store, r);
  }

  lemma {:induction false} FlushToCounts(p: Pool, n: nat)
    requires PoolOk(p) && Numbered(p) && n <= |p.frames|
    ensures p.store.pageCount <= FlushTo(p, n).store.pageCount <= PAGE_LIMIT
  {
    hide PoolOk, Numbered, StoreWrite;
    CachedBelow(p, n);
    if n > 0 {
      FlushToCounts(p, n - 1);
      FlushToOk(p, n - 1);
      var p1 := FlushTo(p, n - 1);
      assert p1.frames[n - 1] == p.frames[n - 1];
      if PoolModel.Occupied(p, n - 1) {
        CachedBelow(p, n - 1);
        WriteCounts(p1.store, p.frames[n - 1].page.value.id, p.frames[n - 1].page.value.data);
      }
    }
  }

  lemma WriteCounts(s: Store, pid: nat, data: PageData)
    ensures s.pageCount <= StoreWrite(s, pid, data).pageCount
    ensures pid < PAGE_LIMIT && s.pageCount <= PAGE_LIMIT ==> StoreWrite(s, pid, data).pageCount <= PAGE_LIMIT
  {
  }

  lemma CachedBelow(p: Pool, i: nat)
    requires PoolOk(p) && Numbered(p)
    ensures p.store.pageCount <= PAGE_LIMIT
    ensures PoolModel.Occupied(p, i) ==> p.frames[i].page.value.id < PAGE_LIMIT
  {
  }

  lemma FlushInv(p: Pool, q: nat)
    requires PoolOk(p) && Numbered(p) && 1 <= q < PAGE_LIMIT && PageInv(p, q)
    ensures var p' := FlushAll(p);
            && PoolOk(p') && Numbered(p') && p'.store.pageCount >= p.store.pageCount && PageInv(p', q)
            && HoldingOf(View(p', q)) == HoldingOf(View(p, q)) == HoldingOf(StoreRead(p'.store, q))
  {
    hide StoreOk, StoreRead, HeaderOf, WellFormed, RowsOf, FreeSpace, Blank, NoRepeats, FlushTo;
    var n := |p.frames|;
    FlushToOk(p, n);
    FlushToReads(p, n, q);
    FlushToCounts(p, n);
    if q in p.pageMap {
      assert Maps(p, q, p.pageMap[q]);
    }
  }

  lemma ReopenedInv(s: Store, capacity: nat, q: nat)
    requires StoreOk(s) && s.pageCount <= PAGE_LIMIT && 1 <= q < PAGE_LIMIT && PageOk(StoreRead(s, q), q)
    ensures var p := Reopened(s, capacity);
            && PoolOk(p) && Numbered(p) && PageInv(p, q) && View(p, q) == StoreRead(s, q)
  {
    hide HeaderOf, WellFormed, RowsOf;
  }

  lemma FetchBelow(p: Pool, pid: nat, n: nat)
    requires PoolOk(p) && Below(p, n) && pid < n && Fetch(p, pid).Some?
    ensures Below(Fetch(p, pid).value, n)
  {
    hide StoreOk, StoreRead, Without, NoRepeats;
    if pid !in p.pageMap && FirstFree(p.frames, 0).None? {
      EvictOk(p, VictimOf(p).value);
    }
  }

  /** The page can take the tag of table t: it has its tag already, or no rows. */
  lemma MayTag(p: Pool, pid: nat, t: nat, dirty: bool)
    requires PoolOk(p) && 1 <= pid < p.store.pageCount && pid in p.pageMap && PageInv(p, pid) && t < TWO32
    requires HeaderOf(View(p, pid)).tableID == t || RowsOf(View(p, pid)) == []
    requires dirty == p.frames[p.pageMap[pid]].page.value.dirty
    ensures MayChange(p, pid, Tagged(View(p, pid), t), dirty)
    ensures HoldingOf(Tagged(View(p, pid), t)) == HoldingOf(View(p, pid))
  {
    hide StoreOk, StoreRead, NoRepeats, HeaderOf, WellFormed, Tagged;
    TaggedIs(View(p, pid), t);
    if RowsOf(View(p, pid)) != [] {
      TaggedSame(View(p, pid));
    }
  }

  // ----- page 0 under each operation -----

  lemma ZeroIs(d: PageData)
    requires PageZero(d)
    ensures |d| == PAGE_SIZE && HeaderOf(d).pageID == 0 && HeaderOf(d).rowCount == 0
  {
    hide Blank;
    BlankIs(0);
    ZerosHaveNoName();
    ZerosAreZero(2);
    assert Zeros(PAGE_SIZE)[16..18] == Zeros(2);
  }

  lemma EvictZero(p: Pool, i: nat)
    requires PoolOk(p) && PoolModel.Occupied(p, i) && ZeroOk(p)
    ensures PoolOk(Evict(p, i)) && ZeroOk(Evict(p, i))
  {
    hide StoreOk, StoreRead, StoreWrite, HeaderOf, Blank, Without, NoRepeats;
    EvictOk(p, i);
    var page := p.frames[i].page.value;
    WriteThenRead(p.store, page.id, page.data, 0);
    if page.id == 0 {
      ZeroIs(page.data);
    }
    if 0 in p.pageMap {
      assert Maps(p, 0, p.pageMap[0]);
    }
  }

  lemma FetchZero(p: Pool, pid: nat)
    requires PoolOk(p) && Fetch(p, pid).Some? && ZeroOk(p)
    ensures ZeroOk(Fetch(p, pid).value)
  {
    hide PageZero, View, VictimOf, Evict;
    if pid in p.pageMap {
      TouchView(p, p.pageMap[pid], 0);
    } else if FirstFree(p.frames, 0).Some? {
      LoadView(p, pid, FirstFree(p.frames, 0).value, 0);
    } else {
      var i := VictimOf(p).value;
      EvictZero(p, i);
      EvictOk(p, i);
      LoadView(Evict(p, i), pid, i, 0);
    }
  }

  lemma UnpinZero(p: Pool, pid: nat, dirty: bool)
    requires PoolOk(p) && ZeroOk(p)
    ensures PoolOk(Unpin(p, pid, dirty)) && ZeroOk(Unpin(p, pid, dirty))
  {
    hide PageZero, Unpin, View;
    UnpinKeepsViews(p, pid, dirty, 0);
  }

  lemma ChangedZero(p: Pool, pid: nat, data: PageData, dirty: bool)
    requires PoolOk(p) && ZeroOk(p) && MayChange(p, pid, data, dirty)
    ensures PoolOk(Changed(p, pid, data, dirty)) && ZeroOk(Changed(p, pid, data, dirty))
  {
    hide PageZero, View;
    ChangedView(p, pid, data, dirty, 0);
  }

  lemma AllocatedZero(p: Pool)
    requires PoolOk(p) && ZeroOk(p) && PoolOk(Allocated(p))
    ensures ZeroOk(Allocated(p))
  {
    hide PageZero, HeaderOf, Blank;
    if 0 in p.pageMap {
      assert Maps(p, 0, p.pageMap[0]);
    }
  }

  lemma FlushZero(p: Pool)
    requires PoolOk(p) && ZeroOk(p)
    ensures PoolOk(FlushAll(p)) && ZeroOk(FlushAll(p))
  {
    hide StoreOk, StoreRead, HeaderOf, Blank, NoRepeats, FlushTo;
    FlushToOk(p, |p.frames|);
    FlushToReads(p, |p.frames|, 0);
    ZeroIs(View(p, 0));
    if 0 in p.pageMap {
      assert Maps(p, 0, p.pageMap[0]);
    }
  }

  lemma ReopenedZero(p: Pool, capacity: nat)
    requires PoolOk(p) && ZeroOk(p) && PoolOk(Reopened(FlushAll(p).store, capacity))
    ensures ZeroOk(Reopened(FlushAll(p).store, capacity))
  {
    hide PageZero, HeaderOf, Blank, FlushAll;
    FlushZero(p);
  }

  // ----- all pages -----

  ghost predicate Kept(p: Pool, p': Pool, q: nat)
    requires PoolOk(p) && PoolOk(p')
  {
    PageInv(p, q) && PageInv(p', q) && HoldingOf(View(p', q)) == HoldingOf(View(p, q))
  }

  lemma SameEach(p: Pool, p': Pool)
    requires HeapOk(p) && PoolOk(p') && Numbered(p') && ZeroOk(p')
    requires forall q: nat :: 1 <= q < PAGE_LIMIT ==> Kept(p, p', q)
    ensures SameHoldings(p, p')
  {
    hide PoolOk, Numbered, HoldingOf, View, WellFormed, StoreRead, Blank, Stale, ZeroOk;
    forall q: nat | 1 <= q < PAGE_LIMIT ensures PageInv(p', q) {
      assert Kept(p, p', q);
    }
    forall q: nat | 1 <= q < PAGE_LIMIT ensures Held(p', q) == Held(p, q) {
      assert Kept(p, p', q);
    }
  }

  lemma FetchCarries(p: Pool, pid: nat)
    requires HeapOk(p) && Fetch(p, pid).Some? && pid < PAGE_LIMIT
    ensures Carries(p, Fetch(p, pid).value)
  {
    hide PoolOk, PageInv, ZeroOk, HoldingOf, View, Fetch, Numbered;
    var p' := Fetch(p, pid).value;
    forall q: nat | 1 <= q < PAGE_LIMIT
      ensures Kept(p, p', q) && Numbered(p') && p'.store.pageCount >= p.store.pageCount
    {
      assert PageInv(p, q);
      FetchInv(p, pid, q);
    }
    assert Kept(p, p', 1);
    FetchZero(p, pid);
    SameEach(p, p');
  }

  lemma UnpinCarries(p: Pool, pid: nat, dirty: bool)
    requires HeapOk(p)
    ensures PoolOk(Unpin(p, pid, dirty)) && Carries(p, Unpin(p, pid, dirty))
    ensures Unpin(p, pid, dirty).store == p.store
  {
    hide PoolOk, PageInv, ZeroOk, HoldingOf, View, Unpin, Numbered;
    assert PageInv(p, 1);
    UnpinInv(p, pid, dirty, 1);
    var p' := Unpin(p, pid, dirty);
    forall q: nat | 1 <= q < PAGE_LIMIT ensures Kept(p, p', q) {
      assert PageInv(p, q);
      UnpinInv(p, pid, dirty, q);
    }
    UnpinZero(p, pid, dirty);
    SameEach(p, p');
  }

  /** A heap in which page pid holds h, and every other page what it held. */
  ghost predicate Alters(p: Pool, p': Pool, pid: nat, h: Holding) {
    && HeapOk(p) && HeapOk(p') && 1 <= pid < PAGE_LIMIT && p.store.pageCount <= p'.store.pageCount
    && forall q: nat :: 1 <= q < PAGE_LIMIT ==> Held(p', q) == if q == pid then h else Held(p, q)
  }

  lemma ChangedAlters(p: Pool, pid: nat, data: PageData, dirty: bool)
    requires HeapOk(p) && MayChange(p, pid, data, dirty)
    ensures PoolOk(Changed(p, pid, data, dirty)) && Changed(p, pid, data, dirty).store == p.store
    ensures Alters(p, Changed(p, pid, data, dirty), pid, HoldingOf(data))
  {
    hide PoolOk, PageInv, ZeroOk, HoldingOf, View, Changed;
    var p' := Changed(p, pid, data, dirty);
    assert PageInv(p, 1);
    ChangedInv(p, pid, data, dirty, 1);
    ChangedZero(p, pid, data, dirty);
    forall q: nat | 1 <= q < PAGE_LIMIT ensures PageInv(p', q) {
      assert PageInv(p, q);
      ChangedInv(p, pid, data, dirty, q);
    }
    forall q: nat | 1 <= q < PAGE_LIMIT ensures Held(p', q) == if q == pid then HoldingOf(data) else Held(p, q) {
      assert PageInv(p, q) && PageInv(p', q);
      ChangedInv(p, pid, data, dirty, q);
    }
  }

  lemma AllocatedCarries(p: Pool)
    requires HeapOk(p) && p.store.pageCount < PAGE_LIMIT
    ensures Carries(p, Allocated(p))
  {
    hide PoolOk, PageInv, ZeroOk, HoldingOf, View, Numbered;
    assert PageInv(p, 1);
    AllocatedInv(p, 1);
    forall q: nat | 1 <= q < PAGE_LIMIT ensures Kept(p, Allocated(p), q) {
      assert PageInv(p, q);
      AllocatedInv(p, q);
    }
    AllocatedZero(p);
    SameEach(p, Allocated(p));
  }

  lemma FlushCarries(p: Pool)
    requires HeapOk(p)
    ensures Carries(p, FlushAll(p))
  {
    hide PoolOk, PageInv, ZeroOk, HoldingOf, View, Numbered, FlushAll;
    assert PageInv(p, 1);
    FlushInv(p, 1);
    forall q: nat | 1 <= q < PAGE_LIMIT ensures Kept(p, FlushAll(p), q) {
      assert PageInv(p, q);
      FlushInv(p, q);
    }
    FlushZero(p);
    SameEach(p, FlushAll(p));
  }

  lemma CarriesOn(p: Pool, p': Pool, p'': Pool)
    requires Carries(p, p') && Carries(p', p'')
    ensures Carries(p, p'')
  {
  }

  // ----- a new database -----

  /** A pool of empty frames in front of an empty file is a heap without any rows. */
  lemma NewDatabase(capacity: nat)
    ensures var p := Reopened(Store([], 0), capacity);
            HeapOk(p) && Live(p) == imap[] && Used(p) == imap[] && forall q :: q in Rooms(p) ==>
              Rooms(p)[q] == FULL_ROOM
  {
    hide HeaderOf, WellFormed, RowsOf, Blank;
    var p := Reopened(Store([], 0), capacity);
    forall i: nat ensures !PoolModel.Occupied(p, i) {
    }
    assert PoolOk(p);
    forall q: nat | 1 <= q < PAGE_LIMIT ensures PageInv(p, q) && HoldingOf(View(p, q)) == NOTHING {
      BlankIs(q);
    }
  }

  // ----- rows by their RIDs -----

  /** A row and the table it belongs to. */
  datatype TableRow = TableRow(owner: nat, bytes: seq<Byte>)

  ghost predicate InUse(p: Pool, rid: RID)
    requires HeapOk(p)
  {
    1 <= rid.pageID < PAGE_LIMIT && rid.slotID < |Held(p, rid.pageID).rows|
  }

  ghost predicate IsLive(p: Pool, rid: RID)
    requires HeapOk(p)
  {
    InUse(p, rid) && Held(p, rid.pageID).rows[rid.slotID].Some?
  }

  /** The RIDs handed out, for rows live or deleted, and the table that each was handed out to. */
  ghost function Used(p: Pool): imap<RID, nat>
    requires HeapOk(p)
  {
    imap rid: RID | InUse(p, rid) :: Held(p, rid.pageID).owner
  }

  /** The live rows of all tables. */
  ghost function Live(p: Pool): imap<RID, TableRow>
    requires HeapOk(p)
  {
    imap rid: RID | IsLive(p, rid) ::
      TableRow(Held(p, rid.pageID).owner, Held(p, rid.pageID).rows[rid.slotID].value)
  }

  /** The free bytes of all pages. */
  ghost function Rooms(p: Pool): imap<nat, nat>
    requires HeapOk(p)
  {
    imap q: nat | 1 <= q < PAGE_LIMIT :: Held(p, q).room
  }

  /** A page with n bytes less. */
  ghost predicate RoomTaken(rooms: imap<nat, nat>, rooms': imap<nat, nat>, pid: nat, n: nat) {
    pid in rooms && n <= rooms[pid] && rooms' == rooms[pid := rooms[pid] - n]
  }

  lemma SameLive(p: Pool, p': Pool)
    requires SameHoldings(p, p')
    ensures Live(p') == Live(p) && Used(p') == Used(p) && Rooms(p') == Rooms(p)
  {
    hide Held, HeapOk;
    assert forall rid: RID :: InUse(p', rid) == InUse(p, rid);
  }

  /** A row (without bytes: None) put behind the rows of a page that belongs to the table or to nobody. */
  lemma AddsRow(p: Pool, p': Pool, pid: nat, t: nat, row: Option<seq<Byte>>, size: nat)
    requires HeapOk(p) && 1 <= pid < PAGE_LIMIT && (Held(p, pid).owner == t || Held(p, pid).rows == [])
    requires size <= Held(p, pid).room &&
             Alters(p, p', pid, Holding(t, Held(p, pid).rows + [row], Held(p, pid).room - size))
    ensures var rid := RID(pid, |Held(p, pid).rows|);
            && rid !in Used(p) && Used(p') == Used(p)[rid := t]
            && RoomTaken(Rooms(p), Rooms(p'), pid, size)
            && Live(p') == match row { case None => Live(p) case Some(bytes) => Live(p)[rid := TableRow(t, bytes)] }
  {
    hide Held, HeapOk, Rooms, RoomTaken;
    var rid := RID(pid, |Held(p, pid).rows|);
    RoomIsTaken(p, p', pid, Holding(t, Held(p, pid).rows + [row], Held(p, pid).room - size), size);
    forall r: RID ensures InUse(p', r) == (InUse(p, r) || r == rid)
                  ensures IsLive(p', r) == (IsLive(p, r) || (r == rid && row.Some?)) {
    }
  }

  lemma RoomIsTaken(p: Pool, p': Pool, pid: nat, h: Holding, n: nat)
    requires Alters(p, p', pid, h) && n <= Held(p, pid).room && h.room == Held(p, pid).room - n
    ensures RoomTaken(Rooms(p), Rooms(p'), pid, n)
  {
    hide Held, HeapOk;
  }

  lemma RemovesRow(p: Pool, p': Pool, rid: RID)
    requires HeapOk(p) && InUse(p, rid)
    requires Alters(p, p', rid.pageID, Held(p, rid.pageID).(rows := Held(p, rid.pageID).rows[rid.slotID := None]))
    ensures rid in Used(p) && Live(p') == Live(p) - {rid} && Used(p') == Used(p) && Rooms(p') == Rooms(p)
  {
    hide Held, HeapOk;
    forall r: RID ensures InUse(p', r) == InUse(p, r) && IsLive(p', r) == (IsLive(p, r) && r != rid) {
    }
  }

  /** The pages of table t emptied that can be fetched. */
  ghost predicate Clears(p: Pool, p': Pool, t: nat) {
    && HeapOk(p) && HeapOk(p') && p.store.pageCount <= p'.store.pageCount
    && forall q: nat :: 1 <= q < PAGE_LIMIT ==>
         Held(p', q) == if Held(p, q).owner == t && Fetchable(p, q) then NOTHING else Held(p, q)
  }

  lemma ClearsRows(p: Pool, p': Pool, t: nat)
    requires Clears(p, p', t)
    ensures Live(p') == imap rid | rid in Live(p) && !(Live(p)[rid].owner == t && Fetchable(p, rid.pageID)) ::
            Live(p)[rid]
    ensures Used(p') == imap rid | rid in Used(p) && !(Used(p)[rid] == t && Fetchable(p, rid.pageID)) :: Used(p)[rid]
  {
    hide Held, HeapOk, Fetchable;
    forall r: RID
      ensures InUse(p', r) == (InUse(p, r) && !(Held(p, r.pageID).owner == t && Fetchable(p, r.pageID)))
      ensures IsLive(p', r) == (IsLive(p, r) && !(Held(p, r.pageID).owner == t && Fetchable(p, r.pageID)))
    {
    }
  }

  /** Reopening the file after a flush, with any number of frames, finds every live row and every used RID again. */
  lemma ReopenedRows(p: Pool, capacity: nat)
    requires HeapOk(p)
    ensures var p' := Reopened(FlushAll(p).store, capacity);
            HeapOk(p') && Live(p') == Live(p) && Used(p') == Used(p) && Rooms(p') == Rooms(p)
  {
    hide PoolOk, PageInv, ZeroOk, HoldingOf, View, Numbered, FlushAll, Reopened;
    var p' := Reopened(FlushAll(p).store, capacity);
    ReopenedKept(p, capacity, 1);
    forall q: nat | 1 <= q < PAGE_LIMIT ensures Kept(p, p', q) {
      ReopenedKept(p, capacity, q);
    }
    ReopenedZero(p, capacity);
    SameEach(p, p');
    SameLive(p, p');
  }

  lemma ReopenedKept(p: Pool, capacity: nat, q: nat)
    requires HeapOk(p) && 1 <= q < PAGE_LIMIT
    ensures var p' := Reopened(FlushAll(p).store, capacity); PoolOk(p') && Numbered(p') && Kept(p, p', q)
  {
    hide StoreRead, HeaderOf, WellFormed, RowsOf, FreeSpace, Blank, NoRepeats, FlushAll, Reopened, View;
    assert PageInv(p, q);
    FlushInv(p, q);
    ReopenedInv(FlushAll(p).store, capacity, q);
  }
}
