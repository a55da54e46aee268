// Which page of a table a new row goes to: the first, in page order, that the table may use and that has room.
module FirstFit {
  import opened Sequences
  import opened Bytes
  import opened PageModel
  import opened PoolModel
  import opened HeapModel

  /** A page the table may use: its own, or one of nobody and without rows. */
  ghost predicate Free(d: PageData, t: nat) {
    && WellFormed(d)
    && (HeaderOf(d).tableID == t || (HeaderOf(d).tableID == 0 && RowsOf(d) == []))
  }

  /** Page q can be fetched, table t may use it, and a row of this size fits; its owner is not a change unreported. */
  ghost predicate Offers(p: Pool, t: nat, q: nat, size: nat)
    requires PoolOk(p)
  {
    && Fetchable(p, q) && !Stale(p, q)
    && Free(View(p, q), t) && size + SLOT_SIZE <= FreeSpace(View(p, q))
  }

  ghost predicate NoneBefore(p: Pool, t: nat, size: nat, n: nat)
    requires PoolOk(p)
  {
    forall q: nat :: 1 <= q < n ==> !Offers(p, t, q, size)
  }

  /**
   The place of a new row: no page before its page offers room; its page does so itself, unless it is new or its owner
   was a change unreported; and the slot comes behind those in use.
   */
  ghost predicate IsFirstFit(p: Pool, t: nat, size: nat, rid: RID)
    requires HeapOk(p)
  {
    && 1 <= rid.pageID < PAGE_LIMIT && NoneBefore(p, t, size, rid.pageID)
    && (rid.pageID < p.store.pageCount && !Stale(p, rid.pageID) ==> Offers(p, t, rid.pageID, size))
    && rid.slotID == |Held(p, rid.pageID).rows|
  }

  /** A page taken, as it reads; of one that was there without an unreported change, as it read at first. */
  ghost predicate Picked(p: Pool, t: nat, pid: nat, d: PageData)
    requires PoolOk(p)
  {
    pid < p.store.pageCount && !Stale(p, pid) ==> Fetchable(p, pid) && View(p, pid) == d && Free(d, t)
  }

  lemma NoneBeforeFirst(p: Pool, t: nat, size: nat)
    requires PoolOk(p)
    ensures NoneBefore(p, t, size, 1)
  {
  }

  lemma NoneBeforeFewer(p: Pool, t: nat, size: nat, n: nat, m: nat)
    requires PoolOk(p) && NoneBefore(p, t, size, n) && m <= n
    ensures NoneBefore(p, t, size, m)
  {
    hide PoolOk, Offers;
  }

  lemma PickedNew(p: Pool, t: nat, pid: nat, d: PageData)
    requires PoolOk(p) && p.store.pageCount <= pid
    ensures Picked(p, t, pid, d)
  {
  }

  // ----- what stays while pages are looked at -----

  /** Pages without an unreported change stay so, with their bytes. */
  ghost predicate CleanKept(p: Pool, p': Pool)
    requires PoolOk(p) && PoolOk(p')
  {
    forall q: nat :: 1 <= q < PAGE_LIMIT && !Stale(p, q) ==> !Stale(p', q) && View(p', q) == View(p, q)
  }

  lemma NamedPage(p: Pool, q: nat)
    requires HeapOk(p) && 1 <= q < PAGE_LIMIT
    ensures Disciplined(p, q) <==> !Stale(p, q)
  {
    hide PoolOk, View, HeaderOf, Stale, WellFormed, RowsOf;
    assert PageInv(p, q);
  }

  lemma FetchCleanKept(p: Pool, pid: nat)
    requires HeapOk(p) && pid < PAGE_LIMIT && Fetch(p, pid).Some?
    ensures HeapOk(Fetch(p, pid).value) && CleanKept(p, Fetch(p, pid).value)
  {
    hide PoolOk, View, Stale, Fetch, Disciplined;
    FetchCarries(p, pid);
    var p' := Fetch(p, pid).value;
    forall q: nat | 1 <= q < PAGE_LIMIT && !Stale(p, q) ensures !Stale(p', q) && View(p', q) == View(p, q) {
      NamedPage(p, q);
      NamedPage(p', q);
      FetchKeepsViews(p, pid, q);
      FetchKeepsDiscipline(p, pid, q);
    }
  }

  lemma UnpinCleanKept(p: Pool, pid: nat, dirty: bool)
    requires HeapOk(p) && HeapOk(Unpin(p, pid, dirty))
    ensures CleanKept(p, Unpin(p, pid, dirty))
  {
    hide PoolOk, View, Stale, Unpin, Disciplined;
    forall q: nat | 1 <= q < PAGE_LIMIT && !Stale(p, q)
      ensures !Stale(Unpin(p, pid, dirty), q) && View(Unpin(p, pid, dirty), q) == View(p, q)
    {
      NamedPage(p, q);
      NamedPage(Unpin(p, pid, dirty), q);
      UnpinKeepsViews(p, pid, dirty, q);
    }
  }

  lemma CleanKeptSelf(p: Pool)
    requires PoolOk(p)
    ensures CleanKept(p, p)
  {
  }

  lemma CleanKeptOn(p: Pool, p': Pool, p'': Pool)
    requires PoolOk(p) && PoolOk(p') && PoolOk(p'') && CleanKept(p, p') && CleanKept(p', p'')
    ensures CleanKept(p, p'')
  {
    hide PoolOk, View, Stale;
  }

  /** What a page offers does not change while pages are looked at and given back. */
  lemma OffersLater(p: Pool, p': Pool, t: nat, q: nat, size: nat)
    requires PoolOk(p) && PoolOk(p') && PinsKept(p, p') && CleanKept(p, p') && 1 <= q < PAGE_LIMIT
    ensures Offers(p, t, q, size) ==> Offers(p', t, q, size)
  {
    hide PoolOk, View, Stale, Free, FreeSpace, PinsOf, HasRoom;
  }

  lemma PickedFrom(p: Pool, was: Pool, pid: nat, t: nat, p': Pool)
    requires PoolOk(p) && HeapOk(was) && PinsKept(p, was) && CleanKept(p, was) && 1 <= pid < PAGE_LIMIT
    requires Fetch(was, pid) == Some(p') && PoolOk(p') && Free(View(p', pid), t)
    ensures Picked(p, t, pid, View(p', pid))
  {
    hide PoolOk, View, Stale, Free, Fetch, PinsOf, HasRoom, PageInv, ZeroOk, Numbered;
    FetchCleanKept(was, pid);
    FetchableFetches(was, pid);
  }

  lemma OneMorePassed(p: Pool, p': Pool, t: nat, size: nat, pid: nat)
    requires PoolOk(p) && PoolOk(p') && PinsKept(p, p') && CleanKept(p, p') && 1 <= pid < PAGE_LIMIT
    requires NoneBefore(p, t, size, pid) && !Offers(p', t, pid, size)
    ensures NoneBefore(p, t, size, pid + 1)
  {
    hide PoolOk, PinsKept, CleanKept, Offers;
    OffersLater(p, p', t, pid, size);
  }
}
