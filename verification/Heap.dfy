// A table as a heap of pages in a pool it shares with the other tables.
module Heap {
  import opened Sequences
  import opened Bytes
  import opened Results
  import opened PageModel
  import opened PoolModel
  import opened SlottedPage
  import opened RowModel
  import opened HeapModel
  import opened FirstFit
  import opened TableModel
  import BP = BufferPool
  import RowCodec

  class HeapFile {
    const Name: string
    const Schema: Schema
    const tableID: nat
    const BufferPool: BP.BufferPool
    const Disk: BP.DiskManager

    constructor (name: string, schema: Schema, bp: BP.BufferPool, disk: BP.DiskManager)
      requires bp.Valid() && bp.disk == disk && HeapOk(bp.State())
      ensures Valid() && Name == name && Schema == schema && BufferPool == bp && Disk == disk &&
              State() == old(bp.State())
    {
      Name, Schema, tableID, BufferPool, Disk := name, schema, HashString(name), bp, disk;
      new;
      assert bp.Pages() == old(bp.Pages());
      assert bp.Separate();
      assert bp.State() == old(bp.State());
    }

    ghost predicate Valid()
      reads BufferPool, BufferPool.frames, BufferPool.disk, BufferPool.Pages()
    {
      BufferPool.Valid() && BufferPool.disk == Disk && HeapOk(BufferPool.State()) && tableID == HashString(Name)
    }

    ghost function State(): Pool
      reads BufferPool, BufferPool.frames, BufferPool.disk, BufferPool.Pages()
    {
      BufferPool.State()
    }

    /** The page object that the pool holds for page pid. */
    ghost predicate Fetched(page: Page, pid: nat)
      reads BufferPool, BufferPool.frames, BufferPool.disk, BufferPool.Pages()
    {
      pid in BufferPool.pageMap && BufferPool.pageMap[pid] < BufferPool.frames.Length &&
      page == BufferPool.frames[BufferPool.pageMap[pid]].Page
    }

    /**
     A fetched page that the table may use and where the size check of a row of this size passes if it does so on a new
     page.
     */
    ghost predicate Chosen(page: Page, pid: nat, size: nat)
      reads BufferPool, BufferPool.frames, BufferPool.disk, BufferPool.Pages(), page, page.Data
    {
      && Fetched(page, pid) && page.Data.Length == PAGE_SIZE && Claimable(page.Data[..], tableID)
      && Suits(page.Data[..], size)
    }

    lemma FetchedView(page: Page, pid: nat)
      requires Valid() && Fetched(page, pid)
      ensures page.Data.Length == PAGE_SIZE && pid in State().pageMap && page.Data[..] == View(State(), pid)
      ensures page.Dirty == State().frames[State().pageMap[pid]].page.value.dirty
      ensures page as object in BufferPool.Pages() && page.Data as object in BufferPool.Pages()
    {
      hide PoolOk, HeapOk;
      BP.MapsTo(State(), pid);
    }

    /** Fetch a page for reading or changing; null exactly if it is not cached and every frame is pinned. */
    method FetchPage(pid: nat) returns (page: Page?)
      requires Valid() && pid < PAGE_LIMIT
      modifies BufferPool, BufferPool.frames, BufferPool.disk, BufferPool.Pages()
      ensures Valid() && fresh(BufferPool.Pages() - old(BufferPool.Pages()))
      ensures page == null <==> !Fetchable(old(State()), pid)
      ensures page == null ==> State() == old(State())
      ensures page != null ==> Fetch(old(State()), pid) == Some(State()) && Fetched(page, pid)
      ensures Carries(old(State()), State()) && Within(old(State()), pid, State())
    {
      hide PoolOk, HeapOk, Fetch, Fetchable;
      ghost var was := State();
      HeapParts(was);
      FetchableFetches(was, pid);
      page := BufferPool.FetchPage(pid);
      if page == null {
        CarriesSelf(was);
      } else {
        FetchCarries(was, pid);
        FetchWithin(was, pid);
        BP.MapsTo(State(), pid);
      }
    }

    /** Write a header with the table's id. */
    method WriteOwner(page: Page, pid: nat)
      requires BufferPool.Valid() && Fetched(page, pid) && page.Data.Length == PAGE_SIZE
      modifies page.Data
      ensures BufferPool.Valid() && BufferPool.Pages() == old(BufferPool.Pages())
      ensures pid in old(State()).pageMap
      ensures State() == Changed(old(State()), pid, Tagged(old(page.Data[..]), tableID), page.Dirty)
      ensures page.Data[..] == Tagged(old(page.Data[..]), tableID)
    {
      hide PoolOk, Changed, HeaderOf, Patch, HeaderBytes;
      BP.MapsTo(State(), pid);
      var header := page.ReadHeader();
      page.WriteHeader(header.(tableID := tableID));
      BufferPool.SamePages();
      BufferPool.ClientChange(pid);
    }

    /** Set the table id in the header of a page. */
    method SetOwner(page: Page, pid: nat)
      requires Valid() && Fetched(page, pid) && 1 <= pid < State().store.pageCount
      requires page.Data.Length == PAGE_SIZE && Claimable(page.Data[..], tableID)
      modifies page.Data
      ensures Valid() && Fetched(page, pid) && BufferPool.Pages() == old(BufferPool.Pages())
      ensures Carries(old(State()), State()) && SamePins(old(State()), State()) && State().store == old(State()).store
      ensures page.Data.Length == PAGE_SIZE && WellFormed(page.Data[..]) && HeaderOf(page.Data[..]).tableID == tableID
      ensures FreeSpace(page.Data[..]) == old(FreeSpace(page.Data[..]))
    {
      hide PoolOk, HeapOk, WellFormed, HeaderOf, WithHeader, StoreRead, PageInv, View, FreeSpace;
      TaggedClaim(page.Data[..], tableID);
      ghost var was := State();
      FetchedView(page, pid);
      HeapParts(was);
      MayTag(was, pid, tableID, page.Dirty);
      WriteOwner(page, pid);
      TagCarries(was, pid, tableID, page.Dirty);
    }

    /** Add a row to a page, for the table the page belongs to; the result is the slot it gets. */
    method PutRow(page: Page, pid: nat, data: seq<Byte>) returns (r: Result<nat>)
      requires Valid() && Fetched(page, pid) && 1 <= pid < State().store.pageCount
      requires page.Data.Length == PAGE_SIZE && WellFormed(page.Data[..])
      modifies page, page.Data
      ensures Valid() && Fetched(page, pid) && BufferPool.Pages() == old(BufferPool.Pages())
      ensures SamePins(old(State()), State()) && State().store == old(State()).store
      ensures r.Ok? <==> |data| + SLOT_SIZE <= old(FreeSpace(page.Data[..]))
      ensures r.Ok? ==> r.value == |Held(old(State()), pid).rows|
      ensures r.Ok? ==> |data| + SLOT_SIZE <= Held(old(State()), pid).room
      ensures r.Ok? ==> Alters(old(State()), State(), pid,
                               WithOneMore(Held(old(State()), pid), old(HeaderOf(page.Data[..])).tableID, data))
      ensures r.Err? ==> r.error == Reason(old(FreeSpace(page.Data[..])), data) && State() == old(State())
    {
      hide PoolOk, HeapOk, WellFormed, HeaderOf, WithRow, StoreRead, PageInv, View;
      ghost var was := State();
      FetchedView(page, pid);
      r := page.InsertRow(data);
      BufferPool.SamePages();
      BufferPool.ClientChange(pid);
      if r.Ok? {
        AddAlters(was, pid, data);
      } else {
        ChangedToSame(was, pid);
      }
    }

    /** Give a page back that was fetched when the pool was as in was. */
    method UnpinPage(pid: nat, dirty: bool, ghost was: Pool)
      requires Valid() && PoolOk(was) && Fetch(was, pid).Some? && SamePins(Fetch(was, pid).value, State())
      modifies BufferPool.frames, BufferPool.Pages()
      ensures Valid() && BufferPool.Pages() == old(BufferPool.Pages())
      ensures Carries(old(State()), State()) && PinsKept(was, State())
      ensures State() == Unpin(old(State()), pid, dirty)
    {
      hide PoolOk, HeapOk, Fetch, SamePins, Unpin;
      ghost var p := State();
      HeapParts(p);
      VisitKeepsPins(was, pid, p, dirty);
      UnpinCarries(p, pid, dirty);
      BufferPool.UnpinPage(pid, dirty);
    }

    /** Own the page if need be, add the row, and give the page back; a panic keeps it pinned. */
    method AddTo(page: Page, pid: nat, bytes: seq<Byte>, ghost was: Pool) returns (r: Result<RID>)
      requires Valid() && Fetched(page, pid) && 1 <= pid < State().store.pageCount
      requires page.Data.Length == PAGE_SIZE && Claimable(page.Data[..], tableID)
      requires PoolOk(was) && Fetch(was, pid).Some? && SamePins(Fetch(was, pid).value, State())
      modifies BufferPool.frames, BufferPool.Pages()
      ensures Valid() && BufferPool.Pages() == old(BufferPool.Pages())
      ensures if r == Err(Panicked) then LeftPinned(was, State(), pid) else PinsKept(was, State())
      ensures r.Ok? <==> |bytes| + SLOT_SIZE <= old(FreeSpace(page.Data[..]))
      ensures r.Err? ==> r.error == Reason(old(FreeSpace(page.Data[..])), bytes)
      ensures Inserted(old(State()), State(), r, tableID, bytes)
      ensures r.Ok? ==> pid < PAGE_LIMIT && r.value == RID(pid, |Held(old(State()), pid).rows|)
    {
      hide PoolOk, HeapOk, WellFormed, HeaderOf, Tagged, Fetch, SamePins, LeftPinned, PinsKept, Alters, Carries;
      hide Inserted;
      hide Claimable, FreeSpace, View, Reason, HashString, PoolModel.Unpin, Held;
      ghost var p0 := State();
      SetOwner(page, pid);
      ghost var p1 := State();
      FetchedView(page, pid);
      ClaimedOwner(p1, pid, tableID);
      var slot := PutRow(page, pid, bytes);
      ghost var p2 := State();
      SamePinsOn(Fetch(was, pid).value, p0, p1);
      SamePinsOn(Fetch(was, pid).value, p1, p2);
      if slot == Err(Panicked) {
        VisitLeavesPin(was, pid, p2);
        NotInserted(p0, p1, p2, Panicked, tableID, bytes);
        return Err(Panicked);
      }
      UnpinPage(pid, slot.Ok?, was);
      if slot.Err? {
        NotInserted(p0, p1, State(), slot.error, tableID, bytes);
        return Err(slot.error);
      }
      RowInserted(p0, p1, p2, State(), pid, tableID, bytes);
      SameHeld(p0, p1, pid);
      return Ok(RID(pid, slot.value));
    }

    /** Look at a page and keep it, pinned, if the table may use it and a row of this size fits; else give it back. */
    method TryPage(pid: nat, size: nat) returns (page: Page?, ghost was: Pool)
      requires Valid() && 1 <= pid < State().store.pageCount && pid < PAGE_LIMIT && size < TWO16
      modifies BufferPool, BufferPool.frames, BufferPool.disk, BufferPool.Pages()
      ensures Valid() && fresh(BufferPool.Pages() - old(BufferPool.Pages()))
      ensures Carries(old(State()), State()) && Within(old(State()), pid, State())
      ensures page == null ==> PinsKept(old(State()), State()) && CleanKept(old(State()), State())
      ensures page == null ==> !Offers(old(State()), tableID, pid, size)
      ensures was == old(State())
      ensures page != null ==> Fetch(was, pid) == Some(State()) && Chosen(page, pid, size)
      ensures page != null ==> Free(page.Data[..], tableID) && page.Data[..] == View(State(), pid)
    {
      hide PoolOk, HeapOk, Fetch, PinsKept, SamePins, Carries, Unpin, HeaderOf, WellFormed, Claimable, View, Within;
      hide FreeSpace, CleanKept, Free, Stale, Fetchable;
      was := State();
      page := FetchPage(pid);
      if page == null {
        PinsKeptSelf(was);
        CleanKeptSelf(was);
        return;
      }
      FetchCleanKept(was, pid);
      FetchedView(page, pid);
      WellFormedView(State(), pid);
      FreeIff(page.Data[..], tableID);
      var header := page.ReadHeader();
      if header.tableID == tableID || (header.tableID == 0 && header.rowCount == 0) {
        ClaimFrom(page.Data[..], tableID);
        if page.CanFit(size) {
          return;
        }
      }
      SamePinsSelf(State());
      ghost var p := State();
      PassedOver(was, p, pid, tableID, size);
      UnpinPage(pid, false, was);
      CarriesOn(was, p, State());
      CarriesParts(p, State());
      UnpinCleanKept(p, pid, false);
      CleanKeptOn(was, p, State());
      UnpinWithin(was, pid, p, false);
      page := null;
    }

    /** The first page, in page order, that the table may use and where a row of this size fits. */
    method FindPage(size: nat) returns (page: Page?, pid: nat, ghost was: Pool)
      requires Valid() && Below(State(), PAGE_LIMIT - 1) && size < TWO16
      modifies BufferPool, BufferPool.frames, BufferPool.disk, BufferPool.Pages()
      ensures Valid() && fresh(BufferPool.Pages() - old(BufferPool.Pages()))
      ensures Below(State(), PAGE_LIMIT - 1)
      ensures Carries(old(State()), was) && PinsKept(old(State()), was)
      ensures page == null ==> State() == was && was.store.pageCount <= pid
      ensures page != null ==> 1 <= pid < was.store.pageCount && Fetch(was, pid) == Some(State())
      ensures page != null ==> Chosen(page, pid, size)
      ensures NoneBefore(old(State()), tableID, size, pid)
      ensures page != null ==> Picked(old(State()), tableID, pid, page.Data[..])
    {
      hide PoolOk, HeapOk, Fetch, PinsKept, Carries, Chosen, CleanKept, NoneBefore, Offers, Picked, Free;
      ghost var start := State();
      HeapParts(start);
      PinsKeptSelf(start);
      CarriesSelf(start);
      CleanKeptSelf(start);
      NoneBeforeFirst(start, tableID, size);
      pid := 1;
      while pid < Disk.pageCount
        invariant Valid() && fresh(BufferPool.Pages() - old(BufferPool.Pages())) && 1 <= pid
        invariant Below(State(), PAGE_LIMIT - 1) && Carries(start, State()) && PinsKept(start, State())
        invariant CleanKept(start, State()) && NoneBefore(start, tableID, size, pid)
        decreases PAGE_LIMIT - pid
      {
        page, was := TryPage(pid, size);
        if page != null {
          TakenFrom(start, was, pid, tableID, State());
          return;
        }
        PassedOn(start, was, State(), pid, tableID, size);
        pid := pid + 1;
      }
      return null, pid, State();
    }

    method AllocatePage() returns (pid: nat)
      requires Valid() && State().store.pageCount < PAGE_LIMIT
      modifies Disk
      ensures Valid() && BufferPool.Pages() == old(BufferPool.Pages())
      ensures pid == old(State()).store.pageCount && State() == Allocated(old(State()))
    {
      hide PoolOk, HeapOk;
      AllocatedCarries(State());
      HeapParts(Allocated(State()));
      pid := Disk.AllocatePage();
      assert State().frames == old(State()).frames;
    }

    /** A new page with the table's id, fetched so that a flush will write it; null if every frame is pinned. */
    method NewPage() returns (page: Page?, pid: nat, ghost was: Pool)
      requires Valid() && Below(State(), PAGE_LIMIT - 1)
      modifies BufferPool, BufferPool.frames, BufferPool.disk, BufferPool.Pages()
      ensures Valid() && fresh(BufferPool.Pages() - old(BufferPool.Pages()))
      ensures Carries(old(State()), was) && PinsKept(old(State()), was) && Carries(was, State())
      ensures page == null ==> State() == was && !HasRoom(was)
      ensures page != null ==> 1 <= pid < State().store.pageCount && Fetch(was, pid).Some?
      ensures pid == old(State()).store.pageCount
      ensures page != null ==> Fetch(was, pid).Some? && SamePins(Fetch(was, pid).value, State())
      ensures page != null ==> forall size :: Chosen(page, pid, size)
    {
      hide PoolOk, HeapOk, Fetch, PinsKept, SamePins, SameHoldings, HeaderOf, WellFormed, Claimable, View;
      hide FreeSpace, Within, Suits, HasRoom;
      ghost var start := State();
      HeapParts(start);
      AllocatedCarries(start);
      CarriesParts(start, Allocated(start));
      AllocatedPins(start);
      pid := AllocatePage();
      was := State();
      page := FetchPage(pid);
      assert fresh(BufferPool.Pages() - old(BufferPool.Pages()));
      if page == null {
        return;
      }
      FetchedView(page, pid);
      NewPageBlank(start, pid, State());
      ClaimBlank(page.Data[..], pid, tableID);
      ghost var p := State();
      SetOwner(page, pid);
      ClaimOwn(page.Data[..], tableID);
      SuitsAny(page.Data[..]);
      CarriesOn(was, p, State());
    }

    /** A page for a row of this size: one that has room, or else a new one. */
    method ChoosePage(size: nat) returns (page: Page?, pid: nat, ghost was: Pool)
      requires Valid() && Below(State(), PAGE_LIMIT - 1) && size < TWO16
      modifies BufferPool, BufferPool.frames, BufferPool.disk, BufferPool.Pages()
      ensures Valid() && fresh(BufferPool.Pages() - old(BufferPool.Pages()))
      ensures PoolOk(was) && PinsKept(old(State()), was) && Carries(old(State()), State())
      ensures page == null ==> State() == was && !HasRoom(old(State()))
      ensures page != null ==> 1 <= pid < State().store.pageCount && Chosen(page, pid, size)
      ensures page != null ==> Fetch(was, pid).Some? && SamePins(Fetch(was, pid).value, State())
      ensures NoneBefore(old(State()), tableID, size, pid)
      ensures page != null ==> Picked(old(State()), tableID, pid, page.Data[..])
    {
      hide PoolOk, HeapOk, Fetch, PinsKept, SamePins, SameHoldings, Chosen, Below, NoneBefore, Picked;
      ghost var start := State();
      page, pid, was := FindPage(size);
      CarriesParts(start, was);
      if page != null {
        SamePinsSelf(State());
        FetchedCarries(was, pid, State());
        CarriesOn(start, was, State());
        return;
      }
      ghost var mid := was;
      ghost var n := pid;
      page, pid, was := NewPage();
      NoneBeforeFewer(start, tableID, size, n, pid);
      if page != null {
        PickedNew(start, tableID, pid, page.Data[..]);
      }
      CarriesParts(mid, was);
      PinsKeptOn(start, mid, was);
      CarriesOn(start, mid, was);
      CarriesOn(start, was, State());
      RoomKept(start, was);
    }

    /**
     Add a row to the table and return its RID. A row whose size check wraps around panics and leaves its page pinned.
     */
    method InsertRow(row: seq<Value>) returns (r: Result<RID>)
      requires Valid() && Below(State(), PAGE_LIMIT - 1)
      requires |row| == |Schema| ==> Typed(row, Schema)
      modifies BufferPool, BufferPool.frames, BufferPool.disk, BufferPool.Pages()
      ensures Valid() && fresh(BufferPool.Pages() - old(BufferPool.Pages()))
      ensures if r == Err(Panicked) then OnePinMore(old(State()), State()) else PinsKept(old(State()), State())
      ensures |row| != |Schema| ==> r == Err(WrongColumnCount) && State() == old(State())
      ensures |row| == |Schema| ==> Inserted(old(State()), State(), r, tableID, Encode(row, Schema))
      ensures |row| == |Schema| && r.Err? && r != Err(AllPinned) ==> r.error == Reason(FULL_ROOM, Encode(row, Schema))
      ensures |row| == |Schema| && r.Err? && r != Err(AllPinned) ==>
                r.error == (if |Encode(row, Schema)| > 65535 then RowTooLong
                            else if |Encode(row, Schema)| >= 65532 then Panicked else NoSpaceOnPage)
      ensures r == Err(AllPinned) ==> !HasRoom(old(State()))
      ensures r.Ok? ==> |row| == |Schema| && |Encode(row, Schema)| <= MAX_ROW
      ensures |row| == |Schema| && HasRoom(old(State())) ==> (r.Ok? <==> |Encode(row, Schema)| <= MAX_ROW)
      ensures r.Ok? ==> IsFirstFit(old(State()), tableID, |Encode(row, Schema)|, r.value)
    {
      hide PoolOk, HeapOk, Fetch, LeftPinned, PinsKept, SamePins, Carries, Encode, Typed, Claimable, FreeSpace, Used;
      hide Live, Below;
      hide Rooms, HasRoom, Fetched, Suits, NoneBefore, Picked, IsFirstFit, Inserted, HashString, Held, Reason;
      ghost var start := State();
      HeapParts(start);
      PinsKeptSelf(start);
      var data := RowCodec.SerializeRow(row, Schema);
      BufferPool.Unmoved();
      if data.Err? {
        return Err(data.error);
      }
      var page, pid, was := ChoosePage(|data.value| % TWO16);
      ghost var p := State();
      if page == null {
        NotInserted(start, p, p, AllPinned, tableID, data.value);
        return Err(AllPinned);
      }
      ghost var d := page.Data[..];
      ChosenSize(|data.value|, d, tableID);
      ReasonOnNew(data.value);
      r := AddTo(page, pid, data.value, was);
      InsertedFrom(start, p, State(), r, tableID, data.value);
      if r == Err(Panicked) {
        LeftPinnedOn(start, was, State(), pid);
      } else {
        PinsKeptOn(start, was, State());
        if r.Ok? {
          FirstFitFrom(start, p, tableID, data.value, d, r.value);
        }
      }
    }

    /** The bytes of the row with this RID. */
    method ReadRowBytes(rid: RID) returns (r: Result<seq<Byte>>)
      requires Valid() && rid.pageID < PAGE_LIMIT
      modifies BufferPool, BufferPool.frames, BufferPool.disk, BufferPool.Pages()
      ensures Valid() && fresh(BufferPool.Pages() - old(BufferPool.Pages()))
      ensures Carries(old(State()), State()) && PinsKept(old(State()), State()) &&
              Within(old(State()), rid.pageID, State())
      ensures r == if Fetchable(old(State()), rid.pageID) then Reading(old(State()), rid) else Err(AllPinned)
    {
      hide PoolOk, HeapOk, Fetch, PinsKept, SamePins, Carries, Unpin, Within, View, Reading, Fetchable;
      ghost var was := State();
      var page := FetchPage(rid.pageID);
      if page == null {
        PinsKeptSelf(was);
        return Err(AllPinned);
      }
      ghost var p := State();
      FetchedView(page, rid.pageID);
      AnyView(p, rid.pageID);
      r := page.GetRow(rid.slotID);
      ReadsRow(was, p, rid);
      SamePinsSelf(p);
      UnpinPage(rid.pageID, false, was);
      CarriesOn(was, p, State());
      UnpinWithin(was, rid.pageID, p, false);
    }

    /** Read the row with this RID, of whatever table. */
    method GetRow(rid: RID) returns (r: Result<seq<Value>>)
      requires Valid() && rid.pageID < PAGE_LIMIT
      modifies BufferPool, BufferPool.frames, BufferPool.disk, BufferPool.Pages()
      ensures Valid() && fresh(BufferPool.Pages() - old(BufferPool.Pages()))
      ensures Carries(old(State()), State()) && PinsKept(old(State()), State()) &&
              Within(old(State()), rid.pageID, State())
      ensures r == if Fetchable(old(State()), rid.pageID) then Decoded(Reading(old(State()), rid), Schema)
                   else Err(AllPinned)
    {
      hide PoolOk, HeapOk, PinsKept, Carries, Within, Reading, Fetchable;
      var rowData := ReadRowBytes(rid);
      if rowData.Err? {
        return Err(rowData.error);
      }
      r := RowCodec.DeserializeRow(rowData.value, Schema);
    }

    /** Clear a slot of a fetched page. */
    method ClearRow(page: Page, rid: RID) returns (r: Result<()>)
      requires Valid() && Fetched(page, rid.pageID) && rid.pageID < PAGE_LIMIT && page.Data.Length == PAGE_SIZE
      modifies page, page.Data
      ensures Valid() && Fetched(page, rid.pageID) && BufferPool.Pages() == old(BufferPool.Pages())
      ensures SamePins(old(State()), State()) && State().store == old(State()).store &&
              State().pageMap == old(State()).pageMap
      ensures r.Ok? ==> WellFormed(page.Data[..])
      ensures HeaderOf(page.Data[..]) == old(HeaderOf(page.Data[..])) &&
              FreeSpace(page.Data[..]) == old(FreeSpace(page.Data[..]))
      ensures r.Ok? <==> InUse(old(State()), rid)
      ensures r.Ok? ==> Alters(old(State()), State(), rid.pageID,
              Held(old(State()), rid.pageID).(rows := Held(old(State()), rid.pageID).rows[rid.slotID := None]))
      ensures r.Ok? ==> 1 <= rid.pageID < State().store.pageCount
      ensures r.Err? ==> State() == old(State()) && r == Err(NoSuchSlot)
    {
      hide PoolOk, HeapOk, WellFormed, HeaderOf, WithoutRow, StoreRead, PageInv, View, Alters;
      ghost var was := State();
      FetchedView(page, rid.pageID);
      AnyView(was, rid.pageID);
      r := page.DeleteRow(rid.slotID);
      BufferPool.SamePages();
      BufferPool.ClientChange(rid.pageID);
      if r.Ok? {
        ClearAlters(was, rid);
      } else {
        ChangedToSame(was, rid.pageID);
        SamePinsSelf(was);
      }
    }

    /** Mark the row with this RID as deleted; the page counts as changed either way. */
    method DeleteRow(rid: RID) returns (r: Result<()>)
      requires Valid() && rid.pageID < PAGE_LIMIT
      modifies BufferPool, BufferPool.frames, BufferPool.disk, BufferPool.Pages()
      ensures Valid() && fresh(BufferPool.Pages() - old(BufferPool.Pages()))
      ensures PinsKept(old(State()), State()) && Within(old(State()), rid.pageID, State())
      ensures Removed(old(State()), State(), r, rid)
    {
      hide PoolOk, HeapOk, Fetch, PinsKept, SamePins, Carries, Unpin, Within, View, Alters, Live, Rooms, InUse;
      hide Fetchable;
      ghost var was := State();
      var page := FetchPage(rid.pageID);
      if page == null {
        PinsKeptSelf(was);
        return Err(AllPinned);
      }
      ghost var p1 := State();
      CarriesLive(was, p1);
      FetchedView(page, rid.pageID);
      r := ClearRow(page, rid);
      ghost var p2 := State();
      if r.Ok? {
        RemovesRow(p1, p2, rid);
      }
      SamePinsOn(p1, p1, p2);
      UnpinPage(rid.pageID, true, was);
      CarriesLive(p2, State());
      WithinOn(was, rid.pageID, p1, p2);
      UnpinWithin(was, rid.pageID, p2, true);
    }

    /** Put the new version of a row on the same page; if it does not fit, the program waits for its own lock. */
    method PutNew(page: Page, pid: nat, newRow: seq<Value>) returns (r: Result<nat>)
      requires Valid() && Fetched(page, pid) && 1 <= pid < State().store.pageCount
      requires page.Data.Length == PAGE_SIZE && WellFormed(page.Data[..])
      requires |newRow| == |Schema| ==> Typed(newRow, Schema)
      modifies page, page.Data
      ensures Valid() && BufferPool.Pages() == old(BufferPool.Pages())
      ensures SamePins(old(State()), State()) && State().store == old(State()).store &&
              State().pageMap == old(State()).pageMap
      ensures r.Ok? ==> |newRow| == |Schema| && r.value == |Held(old(State()), pid).rows|
      ensures r.Ok? ==> |Encode(newRow, Schema)| + SLOT_SIZE <= Held(old(State()), pid).room
      ensures r.Ok? ==> Alters(old(State()), State(), pid,
                               WithOneMore(Held(old(State()), pid), old(HeaderOf(page.Data[..])).tableID,
                                 Encode(newRow, Schema)))
      ensures r == Err(WrongColumnCount) <==> |newRow| != |Schema|
      ensures r.Ok? <==> |newRow| == |Schema| && |Encode(newRow, Schema)| + SLOT_SIZE <= old(FreeSpace(page.Data[..]))
      ensures r.Err? ==> State() == old(State())
      ensures r.Err? ==> r.error == WrongColumnCount || r.error == Deadlock || r.error == Panicked
      ensures r == Err(Panicked) <==> |newRow| == |Schema| && WrapsAround(old(page.Data[..]), |Encode(newRow, Schema)|)
    {
      hide PoolOk, HeapOk, WellFormed, HeaderOf, View, Alters, Encode, Typed, FreeSpace;
      SamePinsSelf(State());
      SpaceIsSmall(page.Data[..]);
      var data := RowCodec.SerializeRow(newRow, Schema);
      BufferPool.Unmoved();
      if data.Err? {
        return Err(data.error);
      }
      r := PutRow(page, pid, data.value);
      if r.Err? && r != Err(Panicked) {
        return Err(Deadlock);
      }
    }

    /** Put the new version of a row on the page where the old one was cleared, and give the page back. */
    method PutCleared(page: Page, rid: RID, newRow: seq<Value>, ghost p1: Pool, ghost was: Pool) returns (r: Result<()>)
      requires Valid() && Fetched(page, rid.pageID) && page.Data.Length == PAGE_SIZE && WellFormed(page.Data[..])
      requires |newRow| == |Schema| ==> Typed(newRow, Schema)
      requires PoolOk(was) && Fetch(was, rid.pageID) == Some(p1) && SamePins(p1, State())
      requires Cleared(p1, State(), rid) && Fetchable(p1, rid.pageID) && rid.pageID < State().store.pageCount
      requires HeaderOf(page.Data[..]).tableID == Held(p1, rid.pageID).owner
      requires FreeSpace(page.Data[..]) == Held(p1, rid.pageID).room
      modifies BufferPool.frames, BufferPool.Pages()
      ensures Valid() && BufferPool.Pages() == old(BufferPool.Pages())
      ensures State().store == old(State()).store && State().pageMap == old(State()).pageMap
      ensures if r == Err(Deadlock) then LeftPinned(was, State(), rid.pageID) else PinsKept(was, State())
      ensures r != Err(AllPinned) && Updated(p1, State(), r, rid, newRow, Schema)
    {
      hide PoolOk, HeapOk, Fetch, LeftPinned, PinsKept, SamePins, Carries, View, Alters, HeaderOf, FreeSpace, Encode;
      hide Typed, Live, Used, Rooms, Updated, WellFormed, HashString;
      ghost var p2 := State();
      FetchedView(page, rid.pageID);
      var slot := PutNew(page, rid.pageID, newRow);
      ghost var p3 := State();
      SamePinsOn(p1, p2, p3);
      if slot == Err(Deadlock) {
        VisitLeavesPin(was, rid.pageID, p3);
        UpdateStuck(p1, p2, rid, newRow, Schema, Deadlock);
        return Err(Deadlock);
      }
      UnpinPage(rid.pageID, true, was);
      if slot.Err? {
        UpdateLost(p1, p2, State(), rid, newRow, Schema, slot.error);
        return Err(slot.error);
      }
      UpdateMade(p1, p2, p3, State(), rid, newRow, Schema);
      return Ok(());
    }

    /** Clear the old row of a fetched page, put the new one there, and give the page back. */
    method ReplaceRow(page: Page, rid: RID, newRow: seq<Value>, ghost was: Pool) returns (r: Result<()>)
      requires Valid() && Fetched(page, rid.pageID) && rid.pageID < PAGE_LIMIT && page.Data.Length == PAGE_SIZE
      requires |newRow| == |Schema| ==> Typed(newRow, Schema)
      requires PoolOk(was) && Fetch(was, rid.pageID) == Some(State())
      modifies BufferPool.frames, BufferPool.Pages()
      ensures Valid() && BufferPool.Pages() == old(BufferPool.Pages())
      ensures State().store == old(State()).store && State().pageMap == old(State()).pageMap
      ensures if r == Err(Deadlock) then LeftPinned(was, State(), rid.pageID) else PinsKept(was, State())
      ensures r != Err(AllPinned) && Updated(old(State()), State(), r, rid, newRow, Schema)
    {
      hide PoolOk, HeapOk, Fetch, LeftPinned, PinsKept, SamePins, Carries, View, Alters, HeaderOf, FreeSpace, Encode;
      hide Typed, Live, Used, Rooms, Updated, WellFormed, InUse, HashString;
      ghost var p1 := State();
      FetchedView(page, rid.pageID);
      OwnerOfRows(p1, rid);
      var cleared := ClearRow(page, rid);
      SamePinsOn(p1, p1, State());
      if cleared.Err? {
        UnpinPage(rid.pageID, true, was);
        NotUpdated(p1, State(), rid, newRow, Schema);
        return Err(NoSuchSlot);
      }
      r := PutCleared(page, rid, newRow, p1, was);
    }

    /**
     Replace the row with this RID by a new one on the same page. The old row is gone even if the
     new one has the wrong number of columns or its size check wraps around; a new one that does not fit never comes
     back.
     */
    method UpdateRow(rid: RID, newRow: seq<Value>) returns (r: Result<()>)
      requires Valid() && rid.pageID < PAGE_LIMIT
      requires |newRow| == |Schema| ==> Typed(newRow, Schema)
      modifies BufferPool, BufferPool.frames, BufferPool.disk, BufferPool.Pages()
      ensures Valid() && fresh(BufferPool.Pages() - old(BufferPool.Pages()))
      ensures Within(old(State()), rid.pageID, State())
      ensures if r == Err(Deadlock) then LeftPinned(old(State()), State(), rid.pageID)
              else PinsKept(old(State()), State())
      ensures Updated(old(State()), State(), r, rid, newRow, Schema)
    {
      hide PoolOk, HeapOk, Fetch, LeftPinned, PinsKept, Carries, Within, View, Encode, Typed, Updated, WellFormed;
      hide HasRoom;
      ghost var was := State();
      var page := FetchPage(rid.pageID);
      if page == null {
        PinsKeptSelf(was);
        UpdatePinned(was, rid, newRow, Schema);
        return Err(AllPinned);
      }
      ghost var p := State();
      FetchedView(page, rid.pageID);
      r := ReplaceRow(page, rid, newRow, was);
      WithinOn(was, rid.pageID, p, State());
      UpdatedFrom(was, p, State(), r, rid, newRow, Schema);
    }

    /** The rows of one page; slots without a row, and rows that cannot be decoded, are skipped. */
    method ScanPage(page: Page, pid: nat) returns (rows: seq<Row>)
      requires page.Data.Length == PAGE_SIZE && WellFormed(page.Data[..])
      ensures rows == PageScan(RowsOf(page.Data[..]), pid, Schema, |RowsOf(page.Data[..])|)
    {
      hide WellFormed, Decode, RowsOf;
      rows := [];
      ghost var slots := RowsOf(page.Data[..]);
      var header := page.ReadHeader();
      assert header.rowCount == |slots|;
      for slotID := 0 to header.rowCount
        invariant rows == PageScan(slots, pid, Schema, slotID)
      {
        var rowData := page.GetRow(slotID);
        if rowData.Ok? {
          var row := RowCodec.DeserializeRow(rowData.value, Schema);
          if row.Ok? {
            rows := rows + [Row(RID(pid, slotID), row.value)];
          }
        }
      }
    }

    /** The rows listed so far and those of page pid, if it is the table's and can be fetched. */
    method ScanNext(pid: nat, rows: seq<Row>, ghost start: Pool) returns (r: seq<Row>)
      requires Valid() && 1 <= pid < State().store.pageCount && HeapOk(start)
      requires Carries(start, State()) && PinsKept(start, State()) && NoHigher(start, State())
      requires ListsUpTo(rows, Seen(start, tableID, Schema), RID(pid, 0))
      modifies BufferPool, BufferPool.frames, BufferPool.disk, BufferPool.Pages()
      ensures Valid() && fresh(BufferPool.Pages() - old(BufferPool.Pages()))
      ensures Carries(start, State()) && PinsKept(start, State()) && NoHigher(start, State())
      ensures ListsUpTo(r, Seen(start, tableID, Schema), RID(pid + 1, 0))
    {
      hide PoolOk, HeapOk, Fetch, PinsKept, SamePins, Carries, Unpin, Within, NoHigher, View, HeaderOf, WellFormed;
      hide RowsOf;
      hide Seen, ListsUpTo, Fetchable, PageScan, Held, CanAdd, HashString, BP.BufferPool.State;
      ghost var was := State();
      CarriesParts(start, was);
      FetchableKept(start, was, pid);
      var page := FetchPage(pid);
      if page == null {
        PageSkipped(start, tableID, Schema, pid, rows);
        return rows;
      }
      label Fetched:
      ghost var p := State();
      CarriesOn(start, was, p);
      FetchedView(page, pid);
      WellFormedView(p, pid);
      PageListed(start, tableID, Schema, pid, rows);
      PageOwned(start, p, pid, tableID, Schema);
      var header := page.ReadHeader();
      r := rows;
      if header.tableID == tableID {
        var more := ScanPage(page, pid);
        BufferPool.Unmoved@Fetched();
        r := rows + more;
      } else {
        assert r == rows + [];
      }
      SamePinsSelf(p);
      UnpinPage(pid, false, was);
      PinsKeptOn(start, was, State());
      CarriesOn(start, p, State());
      NoHigherOn(start, was, pid, p, false);
    }

    /** All rows of the table in RID order, but for those on pages that cannot be fetched. */
    method ScanFull() returns (rows: seq<Row>)
      requires Valid()
      modifies BufferPool, BufferPool.frames, BufferPool.disk, BufferPool.Pages()
      ensures Valid() && fresh(BufferPool.Pages() - old(BufferPool.Pages()))
      ensures Carries(old(State()), State()) && PinsKept(old(State()), State()) && NoHigher(old(State()), State())
      ensures IsListing(rows, Seen(old(State()), tableID, Schema))
    {
      hide PoolOk, HeapOk, PinsKept, Carries, Seen, IsListing, NoHigher;
      ghost var start := State();
      ghost var table := Seen(start, tableID, Schema);
      CarriesSelf(start);
      HeapParts(start);
      PinsKeptSelf(start);
      NoHigherSelf(start);
      ListsNothing(start, tableID, Schema);
      rows := [];
      var pid := 1;
      while pid < Disk.pageCount
        invariant Valid() && fresh(BufferPool.Pages() - old(BufferPool.Pages())) && 1 <= pid
        invariant Carries(start, State()) && PinsKept(start, State()) && NoHigher(start, State())
        invariant ListsUpTo(rows, table, RID(pid, 0))
        decreases PAGE_LIMIT - pid
      {
        CarriesParts(start, State());
        rows := ScanNext(pid, rows, start);
        pid := pid + 1;
      }
      CarriesParts(start, State());
      ListedAll(start, tableID, Schema, rows, pid);
    }

    /** Whether a page has the table's id; not if it cannot be fetched. */
    method IsOwn(pid: nat) returns (own: bool)
      requires Valid() && 1 <= pid < State().store.pageCount && pid < PAGE_LIMIT
      modifies BufferPool, BufferPool.frames, BufferPool.disk, BufferPool.Pages()
      ensures Valid() && fresh(BufferPool.Pages() - old(BufferPool.Pages()))
      ensures Carries(old(State()), State()) && PinsKept(old(State()), State()) && NoHigher(old(State()), State())
      ensures own ==> Held(old(State()), pid).owner == tableID || Held(old(State()), pid).rows == []
      ensures own ==> Fetchable(old(State()), pid)
      ensures Owns(old(State()), tableID, pid) && Fetchable(old(State()), pid) ==> own
    {
      hide PoolOk, HeapOk, Fetch, PinsKept, SamePins, Carries, Unpin, Within, NoHigher, View, HeaderOf, Fetchable, Held;
      ghost var was := State();
      var page := FetchPage(pid);
      if page == null {
        PinsKeptSelf(was);
        NoHigherSelf(was);
        return false;
      }
      ghost var p := State();
      FetchedView(page, pid);
      TaggedOwn(was, p, pid, tableID);
      var header := page.ReadHeader();
      own := header.tableID == tableID;
      SamePinsSelf(p);
      NoHigherSelf(was);
      UnpinPage(pid, false, was);
      CarriesOn(was, p, State());
      NoHigherOn(was, was, pid, p, false);
    }

    /** Write a blank page over the bytes of a fetched page. */
    method Overwrite(page: Page, pid: nat)
      requires BufferPool.Valid() && Fetched(page, pid) && page.Data.Length == PAGE_SIZE
      modifies page, page.Data
      ensures BufferPool.Valid() && BufferPool.Pages() == old(BufferPool.Pages())
      ensures pid in old(State()).pageMap && State() == Changed(old(State()), pid, Blank(pid), true)
    {
      hide BP.BufferPool.Separate, PoolOk, Changed, HeaderOf, HeaderBytes, Blank, Patch;
      BP.MapsTo(State(), pid);
      ghost var was := page.Data[..];
      var newPage := new Page(pid);
      PutBytes(page.Data, 0, newPage.Data[..]);
      assert page.Data[..] == Blank(pid) by {
        PatchAll(was, Blank(pid));
      }
      page.Dirty := true;
      BufferPool.SamePages();
      BufferPool.ClientChange(pid);
    }

    /** Make a page blank again that can be fetched. */
    method BlankPage(pid: nat) returns (ok: bool)
      requires Valid() && 1 <= pid < State().store.pageCount && pid < PAGE_LIMIT
      modifies BufferPool, BufferPool.frames, BufferPool.disk, BufferPool.Pages()
      ensures Valid() && fresh(BufferPool.Pages() - old(BufferPool.Pages()))
      ensures PinsKept(old(State()), State()) && NoHigher(old(State()), State())
      ensures ok <==> Fetchable(old(State()), pid)
      ensures ok ==> Alters(old(State()), State(), pid, NOTHING)
      ensures !ok ==> State() == old(State())
    {
      hide PoolOk, HeapOk, Fetch, PinsKept, SamePins, Carries, Unpin, Within, NoHigher, View, HeaderOf, Fetchable;
      hide Alters, Changed, Blank;
      ghost var was := State();
      NoHigherSelf(was);
      var page := FetchPage(pid);
      if page == null {
        PinsKeptSelf(was);
        return false;
      }
      ghost var p1 := State();
      FetchedView(page, pid);
      CarriesParts(was, p1);
      Overwrite(page, pid);
      BlankAlters(was, p1, pid);
      ghost var p2 := State();
      UnpinPage(pid, true, was);
      AltersOn(was, p1, p2, State(), pid, NOTHING);
      WithinOn(was, pid, p1, p2);
      NoHigherOn(was, was, pid, p2, true);
      return true;
    }

    /** The pages with the table's id; a page that cannot be fetched is not among them. */
    method OwnPages() returns (pids: seq<nat>)
      requires Valid()
      modifies BufferPool, BufferPool.frames, BufferPool.disk, BufferPool.Pages()
      ensures Valid() && fresh(BufferPool.Pages() - old(BufferPool.Pages()))
      ensures Carries(old(State()), State()) && PinsKept(old(State()), State()) && NoHigher(old(State()), State())
      ensures MayClear(old(State()), tableID, pids) && AllBelow(pids, State().store.pageCount)
      ensures ClearsAll(old(State()), tableID, pids)
    {
      hide PoolOk, HeapOk, PinsKept, SameHoldings, NoHigher, Fetchable, Held, MayClear, ClearsBelow, ClearsAll;
      hide AllBelow;
      ghost var start := State();
      CarriesSelf(start);
      HeapParts(start);
      PinsKeptSelf(start);
      NoHigherSelf(start);
      pids := [];
      OwnNone(start, tableID);
      var pid := 1;
      while pid < Disk.pageCount
        invariant Valid() && fresh(BufferPool.Pages() - old(BufferPool.Pages())) && 1 <= pid
        invariant Carries(start, State()) && PinsKept(start, State()) && NoHigher(start, State())
        invariant MayClear(start, tableID, pids) && AllBelow(pids, pid) && pid <= State().store.pageCount
        invariant ClearsBelow(start, tableID, pids, pid)
        decreases PAGE_LIMIT - pid
      {
        ghost var p := State();
        CarriesParts(start, p);
        FetchableKept(start, p, pid);
        SameHeld(start, p, pid);
        var own := IsOwn(pid);
        PinsKeptOn(start, p, State());
        CarriesOn(start, p, State());
        NoHigherAgain(start, p, State());
        OwnAdded(start, tableID, pids, pid, own);
        if own {
          pids := pids + [pid];
        }
        pid := pid + 1;
      }
      ClearsCounted(start, tableID, pids, pid, State());
    }

    /** Make the next of the pages blank. */
    method BlankNext(pids: seq<nat>, k: nat, ghost start: Pool) returns (ok: bool)
      requires Valid() && k < |pids| && HeapOk(start) && PinsKept(start, State()) && NoHigher(start, State())
      requires ClearedThese(start, State(), pids[..k]) && AllBelow(pids, State().store.pageCount)
      requires Fetchable(start, pids[k])
      modifies BufferPool, BufferPool.frames, BufferPool.disk, BufferPool.Pages()
      ensures Valid() && fresh(BufferPool.Pages() - old(BufferPool.Pages()))
      ensures PoolOk(State()) && PinsKept(start, State()) && NoHigher(start, State())
      ensures ok && ClearedThese(start, State(), pids[..k + 1]) && AllBelow(pids, State().store.pageCount)
    {
      hide PoolOk, HeapOk, PinsKept, NoHigher, Fetchable, Held, Alters, ClearedThese, HashString, BP.BufferPool.State;
      ghost var p := State();
      HeapParts(start);
      HeapParts(p);
      FetchableKept(start, p, pids[k]);
      CountLimit(p);
      ok := BlankPage(pids[k]);
      PinsKeptOn(start, p, State());
      NoHigherAgain(start, p, State());
      ClearedOneMore(start, p, State(), pids, k);
    }

    /** Make all pages of the table blank that can be fetched; it always can. */
    method ClearPagesByTableID() returns (ok: bool)
      requires Valid()
      modifies BufferPool, BufferPool.frames, BufferPool.disk, BufferPool.Pages()
      ensures Valid() && fresh(BufferPool.Pages() - old(BufferPool.Pages()))
      ensures PinsKept(old(State()), State()) && NoHigher(old(State()), State())
      ensures ok && Clears(old(State()), State(), tableID)
    {
      hide PoolOk, HeapOk, PinsKept, NoHigher, Fetchable, Held, Clears, ClearedThese, MayClear, ClearsAll;
      hide HashString, BP.BufferPool.State;
      ghost var start := State();
      var pagesToClean := OwnPages();
      CarriesParts(start, State());
      ClearedNone(start, State(), pagesToClean);
      for k := 0 to |pagesToClean|
        invariant Valid() && fresh(BufferPool.Pages() - old(BufferPool.Pages()))
        invariant PinsKept(start, State()) && NoHigher(start, State())
        invariant ClearedThese(start, State(), pagesToClean[..k])
        invariant AllBelow(pagesToClean, State().store.pageCount)
      {
        MayClearOne(start, tableID, pagesToClean, k);
        ok := BlankNext(pagesToClean, k, start);
        if !ok {
          return;
        }
      }
      ok := true;
      assert pagesToClean[..|pagesToClean|] == pagesToClean;
      ClearedAll(start, State(), tableID, pagesToClean);
    }
  }

  /** Open a file with a pool in front of it, and a table in it. */
  method OpenTable(contents: seq<PageData>, capacity: nat, name: string, schema: Schema) returns (table: HeapFile)
    requires forall i :: 0 <= i < |contents| ==> |contents[i]| == PAGE_SIZE
    requires HeapOk(Reopened(Store(contents, |contents|), capacity))
    ensures table.Valid() && table.Name == name && table.Schema == schema
    ensures table.State() == Reopened(Store(contents, |contents|), capacity)
    ensures fresh(table.BufferPool) && fresh(table.BufferPool.frames) && fresh(table.BufferPool.disk)
    ensures table.BufferPool.Pages() == {}
  {
    hide PoolOk, HeapOk;
    var disk := new BP.DiskManager(contents);
    var bp := new BP.BufferPool(capacity, disk);
    table := new HeapFile(name, schema, bp, disk);
  }

  /** Open a table in a new database: it has no rows, and no other table has any. */
  method NewTable(capacity: nat, name: string, schema: Schema) returns (table: HeapFile)
    ensures table.Valid() && table.Name == name && table.Schema == schema
    ensures Live(table.State()) == imap[] && Used(table.State()) == imap[]
    ensures fresh(table.BufferPool) && fresh(table.BufferPool.frames) && fresh(table.BufferPool.disk)
    ensures table.BufferPool.Pages() == {}
    ensures forall q :: q in Rooms(table.State()) ==> Rooms(table.State())[q] == FULL_ROOM
    ensures table.State().store.pageCount == 1 && table.State().pageMap == map[]
    ensures capacity > 0 ==> HasRoom(table.State())
  {
    hide PoolOk, HeapOk;
    NewDatabase(capacity);
    table := OpenTable([], capacity, name, schema);
    assert capacity > 0 ==> table.State().frames[0].pins == 0;
  }

  lemma HeapParts(p: Pool)
    requires HeapOk(p)
    ensures PoolOk(p) && Numbered(p) && 1 <= p.store.pageCount <= PAGE_LIMIT
    ensures forall q: nat :: 1 <= q < PAGE_LIMIT ==> PageInv(p, q)
  {
  }

  lemma CarriesSelf(p: Pool)
    requires HeapOk(p)
    ensures Carries(p, p)
  {
  }

  /** A page that table t may put rows on: it has the table's id, or no rows. */
  ghost predicate Claimable(d: PageData, t: nat) {
    WellFormed(d) && (HeaderOf(d).tableID == t || RowsOf(d) == [])
  }

  lemma TagCarries(p: Pool, pid: nat, t: nat, dirty: bool)
    requires HeapOk(p) && 1 <= pid < p.store.pageCount && pid in p.pageMap && t < TWO32
    requires MayChange(p, pid, Tagged(View(p, pid), t), dirty) && PageInv(p, pid)
    requires WellFormed(Tagged(View(p, pid), t)) && HoldingOf(Tagged(View(p, pid), t)) == HoldingOf(View(p, pid))
    ensures var p' := Changed(p, pid, Tagged(View(p, pid), t), dirty);
            Carries(p, p') && SamePins(p, p') && p'.store == p.store
  {
    hide PoolOk, HoldingOf, PageInv, View, Tagged, MayChange;
    ChangedAlters(p, pid, Tagged(View(p, pid), t), dirty);
    ChangedPins(p, pid, Tagged(View(p, pid), t), dirty);
  }

  lemma ChangedPins(p: Pool, pid: nat, data: PageData, dirty: bool)
    requires PoolOk(p) && pid in p.pageMap
    ensures SamePins(p, Changed(p, pid, data, dirty))
  {
    assert Maps(p, pid, p.pageMap[pid]);
  }

  /** A row without bytes reads as deleted. */
  function AsRow(bytes: seq<Byte>): Option<seq<Byte>> {
    if bytes == [] then None else Some(bytes)
  }

  /** A page of table t with a row more. */
  function WithOneMore(h: Holding, t: nat, bytes: seq<Byte>): Holding
    requires |bytes| + SLOT_SIZE <= h.room
  {
    Holding(t, h.rows + [AsRow(bytes)], h.room - (|bytes| + SLOT_SIZE))
  }

  lemma AddAlters(p: Pool, pid: nat, data: seq<Byte>)
    requires HeapOk(p) && 1 <= pid < p.store.pageCount && pid in p.pageMap
    requires CanAdd(View(p, pid), data)
    ensures var p' := Changed(p, pid, WithRow(View(p, pid), data), true);
            && SamePins(p, p') && p'.store == p.store && HeaderOf(View(p, pid)).rowCount == |Held(p, pid).rows|
            && |data| + SLOT_SIZE <= Held(p, pid).room
            && Alters(p, p', pid, WithOneMore(Held(p, pid), HeaderOf(View(p, pid)).tableID, data))
  {
    hide PoolOk, WithRow, View;
    WithRowIs(View(p, pid), data);
    assert PageInv(p, pid);
    ChangedAlters(p, pid, WithRow(View(p, pid), data), true);
    ChangedPins(p, pid, WithRow(View(p, pid), data), true);
  }

  lemma ChangedToSame(p: Pool, pid: nat)
    requires PoolOk(p) && pid in p.pageMap
    ensures Changed(p, pid, View(p, pid), p.frames[p.pageMap[pid]].page.value.dirty) == p
  {
    assert Maps(p, pid, p.pageMap[pid]);
  }

  /** What an insert did: nothing to any row, or one new row under a RID not used before. */
  ghost predicate Inserted(p: Pool, p': Pool, r: Result<RID>, t: nat, bytes: seq<Byte>) {
    && HeapOk(p) && HeapOk(p')
    && match r
       case Err(_) => Live(p') == Live(p) && Used(p') == Used(p) && Rooms(p') == Rooms(p)
       case Ok(rid) =>
         && RoomTaken(Rooms(p), Rooms(p'), rid.pageID, |bytes| + SLOT_SIZE)
         && rid !in Used(p) && Used(p') == Used(p)[rid := t]
         && Live(p') == if bytes == [] then Live(p) else Live(p)[rid := TableRow(t, bytes)]
  }

  /** What a delete did: the row is gone, whosever it was, or nothing happened. */
  ghost predicate Removed(p: Pool, p': Pool, r: Result<()>, rid: RID) {
    && HeapOk(p) && HeapOk(p') && Used(p') == Used(p) && Rooms(p') == Rooms(p)
    && match r
       case Err(e) =>
         Live(p') == Live(p) && e == (if Fetchable(p, rid.pageID) then NoSuchSlot else AllPinned) &&
         (Fetchable(p, rid.pageID) ==> rid !in Used(p))
       case Ok(_) => Fetchable(p, rid.pageID) && rid in Used(p) && Live(p') == Live(p) - {rid}
  }

  lemma NotInserted(p: Pool, p1: Pool, p': Pool, e: Error, t: nat, bytes: seq<Byte>)
    requires Carries(p, p1) && (p' == p1 || Carries(p1, p'))
    ensures Inserted(p, p', Err(e), t, bytes)
  {
    hide HeapOk, Held, Live, Used, Rooms;
    SameLive(p, p1);
    if p' != p1 {
      SameLive(p1, p');
    }
  }

  lemma RowInserted(p: Pool, p1: Pool, p2: Pool, p': Pool, pid: nat, t: nat, bytes: seq<Byte>)
    requires Carries(p, p1) && Carries(p2, p') && 1 <= pid < PAGE_LIMIT
    requires (Held(p1, pid).owner == t || Held(p1, pid).rows == []) && |bytes| + SLOT_SIZE <= Held(p1, pid).room
    requires Alters(p1, p2, pid, WithOneMore(Held(p1, pid), t, bytes))
    ensures Inserted(p, p', Ok(RID(pid, |Held(p1, pid).rows|)), t, bytes)
  {
    hide HeapOk, Held, Live, Used, Rooms;
    SameLive(p, p1);
    AddsRow(p1, p2, pid, t, AsRow(bytes), |bytes| + SLOT_SIZE);
    SameLive(p2, p');
  }

  lemma SamePinsOn(p: Pool, p': Pool, p'': Pool)
    requires SamePins(p, p') && SamePins(p', p'')
    ensures SamePins(p, p'')
  {
  }

  lemma TaggedClaim(d: PageData, t: nat)
    requires Claimable(d, t) && t < TWO32
    ensures WellFormed(Tagged(d, t)) && HeaderOf(Tagged(d, t)).tableID == t
    ensures FreeSpace(Tagged(d, t)) == FreeSpace(d)
  {
    hide HeaderOf, Tagged;
    TaggedIs(d, t);
  }

  lemma ClaimOwn(d: PageData, t: nat)
    requires WellFormed(d) && HeaderOf(d).tableID == t
    ensures Claimable(d, t)
  {
  }

  lemma ClaimedOwner(p: Pool, pid: nat, t: nat)
    requires HeapOk(p) && 1 <= pid < p.store.pageCount && HeaderOf(View(p, pid)).tableID == t
    ensures pid < PAGE_LIMIT
    ensures Held(p, pid).owner == t || Held(p, pid).rows == []
  {
    hide HeaderOf, View, PoolOk;
    assert PageInv(p, pid);
  }

  /** Page pid is the only page that may be cached or counted now and was not before. */
  ghost predicate Within(p: Pool, pid: nat, p': Pool) {
    forall n :: pid < n && Below(p, n) ==> Below(p', n)
  }

  lemma FetchWithin(p: Pool, pid: nat)
    requires PoolOk(p) && Fetch(p, pid).Some?
    ensures Within(p, pid, Fetch(p, pid).value)
  {
    hide PoolOk, Fetch, Below;
    forall n | pid < n && Below(p, n) ensures Below(Fetch(p, pid).value, n) {
      FetchBelow(p, pid, n);
    }
  }

  lemma UnpinWithin(p: Pool, pid: nat, p': Pool, dirty: bool)
    requires Within(p, pid, p') && PoolOk(p')
    ensures Within(p, pid, Unpin(p', pid, dirty))
  {
    hide PoolOk;
  }

  lemma ClaimFrom(d: PageData, t: nat)
    requires WellFormed(d) && (HeaderOf(d).tableID == t || (HeaderOf(d).tableID == 0 && HeaderOf(d).rowCount == 0))
    ensures Claimable(d, t)
  {
    hide WellFormed;
  }

  lemma ReasonOnNew(bytes: seq<Byte>)
    ensures Reason(FULL_ROOM, bytes) ==
            if |bytes| > 65535 then RowTooLong else if |bytes| >= 65532 then Panicked else NoSpaceOnPage
  {
  }

  lemma InsertedFrom(p: Pool, p1: Pool, p': Pool, r: Result<RID>, t: nat, bytes: seq<Byte>)
    requires Carries(p, p1) && Inserted(p1, p', r, t, bytes)
    ensures Inserted(p, p', r, t, bytes)
  {
    hide HeapOk, Live, Used, Rooms;
    CarriesLive(p, p1);
  }

  /** The row went to the page picked for it, where it fits. */
  lemma FirstFitFrom(p: Pool, p1: Pool, t: nat, bytes: seq<Byte>, d: PageData, rid: RID)
    requires Carries(p, p1) && PoolOk(p) && |d| == PAGE_SIZE && |bytes| + SLOT_SIZE <= FreeSpace(d)
    requires NoneBefore(p, t, |bytes| % TWO16, rid.pageID) && Picked(p, t, rid.pageID, d)
    requires 1 <= rid.pageID < PAGE_LIMIT && rid.slotID == |Held(p1, rid.pageID).rows|
    ensures IsFirstFit(p, t, |bytes|, rid)
  {
    hide PoolOk, HeapOk, View, Held, NoneBefore, Free, Stale, Fetchable;
    SameHeld(p, p1, rid.pageID);
    SpaceIsSmall(d);
  }

  lemma TakenFrom(p: Pool, was: Pool, pid: nat, t: nat, p': Pool)
    requires Carries(p, was) && PoolOk(p) && PoolOk(was) && PinsKept(p, was) && CleanKept(p, was)
    requires 1 <= pid < PAGE_LIMIT && Fetch(was, pid) == Some(p') && HeapOk(p') && Free(View(p', pid), t)
    ensures Picked(p, t, pid, View(p', pid))
  {
    hide PoolOk, View, Free, Fetch, PinsKept, CleanKept, Picked;
    HeapParts(p');
    PickedFrom(p, was, pid, t, p');
  }

  lemma PassedOn(p: Pool, was: Pool, p': Pool, pid: nat, t: nat, size: nat)
    requires Carries(p, was) && PoolOk(p) && PoolOk(was) && PinsKept(p, was) && CleanKept(p, was)
    requires Carries(was, p') && PoolOk(p') && PinsKept(was, p') && CleanKept(was, p')
    requires 1 <= pid < PAGE_LIMIT && NoneBefore(p, t, size, pid) && !Offers(was, t, pid, size)
    ensures Carries(p, p') && PinsKept(p, p') && CleanKept(p, p') && NoneBefore(p, t, size, pid + 1)
  {
    hide PoolOk, PinsKept, CleanKept, NoneBefore, Offers, Carries;
    OneMorePassed(p, was, t, size, pid);
    PinsKeptOn(p, was, p');
    CleanKeptOn(p, was, p');
    CarriesOn(p, was, p');
  }

  lemma FreeIff(d: PageData, t: nat)
    requires WellFormed(d) && HeaderOf(d).rowCount == |RowsOf(d)|
    ensures Free(d, t) <==> HeaderOf(d).tableID == t || (HeaderOf(d).tableID == 0 && HeaderOf(d).rowCount == 0)
  {
    hide WellFormed, HeaderOf, RowsOf;
  }

  /** A page fetched and not taken, for want of the right to use it or of room, did not offer any. */
  lemma PassedOver(p: Pool, p': Pool, pid: nat, t: nat, size: nat)
    requires HeapOk(p) && HeapOk(p') && 1 <= pid < PAGE_LIMIT && CleanKept(p, p')
    requires !Free(View(p', pid), t) || size + SLOT_SIZE > FreeSpace(View(p', pid))
    ensures !Offers(p, t, pid, size)
  {
    hide PoolOk, View, Stale, Free, FreeSpace;
    HeapParts(p);
    HeapParts(p');
  }

  /** A page without its owner's rows, or page 0, can be read as a page. */
  lemma AnyView(p: Pool, pid: nat)
    requires HeapOk(p) && pid < PAGE_LIMIT
    ensures PoolOk(p) && |View(p, pid)| == PAGE_SIZE
    ensures pid >= 1 ==> WellFormed(View(p, pid)) && HeaderOf(View(p, pid)).rowCount == |RowsOf(View(p, pid))|
    ensures pid == 0 ==> NoRows(View(p, pid))
  {
    hide PoolOk, View, WellFormed, HeaderOf, RowsOf;
    if pid == 0 {
      ZeroIs(View(p, 0));
    } else {
      WellFormedView(p, pid);
    }
  }

  lemma FetchableKept(p: Pool, p': Pool, pid: nat)
    requires PoolOk(p) && PoolOk(p') && PinsKept(p, p')
    ensures Fetchable(p, pid) ==> Fetchable(p', pid)
    ensures Fetchable(p', pid) ==> Fetchable(p, pid)
  {
    hide PoolOk, HasRoom;
  }

  lemma PinsKeptSelf(p: Pool)
    requires PoolOk(p)
    ensures PinsKept(p, p)
  {
  }

  lemma SamePinsSelf(p: Pool)
    ensures SamePins(p, p)
  {
  }

  lemma WellFormedView(p: Pool, pid: nat)
    requires HeapOk(p) && 1 <= pid < PAGE_LIMIT
    ensures PoolOk(p) && WellFormed(View(p, pid))
    ensures HeaderOf(View(p, pid)).rowCount == |RowsOf(View(p, pid))|
  {
    assert PageInv(p, pid);
  }

  lemma PinsKeptOn(p: Pool, p': Pool, p'': Pool)
    requires PoolOk(p) && PoolOk(p') && PoolOk(p'') && PinsKept(p, p') && PinsKept(p', p'')
    ensures PinsKept(p, p'')
  {
    hide PoolOk, PinsOf, HasRoom;
  }

  /** The longest row that fits a blank page. */
  const MAX_ROW: nat := PAGE_SIZE - HEADER_SIZE - SLOT_SIZE

  lemma AllocatedPins(p: Pool)
    requires PoolOk(p) && PoolOk(Allocated(p))
    ensures PinsKept(p, Allocated(p))
  {
  }

  /** A page fetched right after it was allocated is blank. */
  lemma NewPageBlank(p: Pool, pid: nat, p': Pool)
    requires HeapOk(p) && 1 <= pid < PAGE_LIMIT && pid == p.store.pageCount
    requires PoolOk(Allocated(p)) && Fetch(Allocated(p), pid) == Some(p')
    ensures PoolOk(p') && View(p', pid) == Blank(pid)
  {
    hide PoolOk, View, Fetch, Blank;
    assert PageInv(p, pid);
    AllocatedInv(p, pid);
    FetchKeepsViews(Allocated(p), pid, pid);
  }

  lemma ClaimBlank(d: PageData, pid: nat, t: nat)
    requires d == Blank(pid) && pid < TWO64
    ensures Claimable(d, t) && FreeSpace(d) == FULL_ROOM
  {
    hide WellFormed, HeaderOf, Blank;
    BlankIs(pid);
  }

  /** The size check of a row of this size passes on the page if it does so on a new one. */
  ghost predicate Suits(d: PageData, size: nat)
    requires |d| == PAGE_SIZE
  {
    size <= MAX_ROW || SizeWraps(size) ==> (size + SLOT_SIZE) % TWO16 <= FreeSpace(d)
  }

  lemma SuitsAny(d: PageData)
    requires |d| == PAGE_SIZE && FreeSpace(d) == FULL_ROOM
    ensures forall size :: Suits(d, size)
  {
    hide FreeSpace;
    forall size: nat ensures Suits(d, size) {
      if SizeWraps(size) {
        assert (size + SLOT_SIZE) % TWO16 == size + SLOT_SIZE - TWO16;
      }
    }
  }

  lemma FetchedCarries(p: Pool, pid: nat, p': Pool)
    requires HeapOk(p) && 1 <= pid < p.store.pageCount && Fetch(p, pid) == Some(p')
    ensures Carries(p, p')
  {
    hide PoolOk, Fetch;
    FetchCarries(p, pid);
  }

  /** On a chosen page a row fits, or is refused, as on a new one. */
  lemma ChosenSize(n: nat, d: PageData, t: nat)
    requires Claimable(d, t)
    requires Suits(d, n % TWO16)
    ensures n + SLOT_SIZE <= FreeSpace(d) <==> n <= MAX_ROW
    ensures forall row: seq<Byte> :: |row| == n && n > MAX_ROW ==> Reason(FreeSpace(d), row) == Reason(FULL_ROOM, row)
  {
    hide HeaderOf, RowsOf;
    HeaderInRange(d);
  }

  lemma RoomKept(p: Pool, p': Pool)
    requires PoolOk(p) && PoolOk(p') && PinsKept(p, p')
    ensures HasRoom(p) ==> HasRoom(p')
  {
  }

  lemma CarriesParts(p: Pool, p': Pool)
    requires Carries(p, p')
    ensures HeapOk(p) && HeapOk(p') && PoolOk(p) && PoolOk(p')
    ensures 1 <= p.store.pageCount <= p'.store.pageCount <= PAGE_LIMIT
  {
  }

  lemma CarriesLive(p: Pool, p': Pool)
    requires Carries(p, p')
    ensures Live(p') == Live(p) && Used(p') == Used(p) && Rooms(p') == Rooms(p)
  {
    SameLive(p, p');
  }

  /** What reading a RID gives. */
  ghost function Reading(p: Pool, rid: RID): Result<seq<Byte>>
    requires HeapOk(p)
  {
    if rid !in Used(p) then Err(NoSuchSlot)
    else if rid !in Live(p) then Err(RowDeleted)
    else Ok(Live(p)[rid].bytes)
  }

  function Decoded(bytes: Result<seq<Byte>>, schema: Schema): Result<seq<Value>> {
    match bytes
    case Ok(b) => Decode(b, schema)
    case Err(e) => Err(e)
  }

  lemma ReadsRow(p: Pool, p': Pool, rid: RID)
    requires Carries(p, p') && PoolOk(p') && rid.pageID < PAGE_LIMIT
    requires rid.pageID >= 1 ==> WellFormed(View(p', rid.pageID))
    ensures rid.pageID >= 1 ==> Reading(p, rid) == ReadRow(RowsOf(View(p', rid.pageID)), rid.slotID)
    ensures rid.pageID == 0 ==> Reading(p, rid) == Err(NoSuchSlot)
  {
    hide HeapOk, PoolOk, View, RowsOf, WellFormed;
    if rid.pageID >= 1 {
      assert Held(p', rid.pageID) == Held(p, rid.pageID);
    }
  }

  lemma ClearAlters(p: Pool, rid: RID)
    requires HeapOk(p) && 1 <= rid.pageID < PAGE_LIMIT && rid.pageID in p.pageMap
    requires WellFormed(View(p, rid.pageID)) && rid.slotID < HeaderOf(View(p, rid.pageID)).rowCount
    ensures var pid := rid.pageID; var d := View(p, pid); var p' := Changed(p, pid, WithoutRow(d, rid.slotID), true);
            && InUse(p, rid) && pid < p.store.pageCount && HeapOk(p') && SamePins(p, p') && p'.store == p.store
            && WellFormed(WithoutRow(d, rid.slotID)) && HeaderOf(WithoutRow(d, rid.slotID)) == HeaderOf(d)
            && Alters(p, p', pid, Held(p, pid).(rows := Held(p, pid).rows[rid.slotID := None]))
  {
    hide PoolOk, WithoutRow, View, HeaderOf, Blank;
    var pid := rid.pageID;
    WithoutRowIs(View(p, pid), rid.slotID);
    assert PageInv(p, pid);
    BlankIs(pid);
    ChangedAlters(p, pid, WithoutRow(View(p, pid), rid.slotID), true);
    ChangedPins(p, pid, WithoutRow(View(p, pid), rid.slotID), true);
  }

  /** No page is cached or counted now above those that were before. */
  ghost predicate NoHigher(p: Pool, p': Pool) {
    forall n :: Below(p, n) ==> Below(p', n)
  }

  lemma NoHigherSelf(p: Pool)
    ensures NoHigher(p, p)
  {
  }

  lemma NoHigherOn(p: Pool, p': Pool, pid: nat, p'': Pool, dirty: bool)
    requires NoHigher(p, p') && Within(p', pid, p'') && pid < p'.store.pageCount && PoolOk(p'')
    ensures NoHigher(p, Unpin(p'', pid, dirty))
  {
    hide PoolOk;
  }

  lemma PageOwned(p: Pool, p': Pool, pid: nat, t: nat, schema: Schema)
    requires Carries(p, p') && 1 <= pid < PAGE_LIMIT
    ensures PoolOk(p') && WellFormed(View(p', pid)) && RowsOf(View(p', pid)) == Held(p, pid).rows
    ensures var rows := RowsOf(View(p', pid)); var scan := PageScan(rows, pid, schema, |rows|);
            (if Held(p, pid).owner == t then scan else []) ==
              (if HeaderOf(View(p', pid)).tableID == t then scan else [])
  {
    hide PoolOk, View, HeaderOf, RowsOf;
    assert PageInv(p', pid);
    assert Held(p', pid) == Held(p, pid);
  }

  lemma WithinOn(p: Pool, pid: nat, p': Pool, p'': Pool)
    requires Within(p, pid, p') && p''.store == p'.store && p''.pageMap == p'.pageMap
    ensures Within(p, pid, p'')
  {
  }

  /** The RID that the next row on a page gets. */
  ghost function NextRID(p: Pool, pid: nat): RID
    requires HeapOk(p) && 1 <= pid < PAGE_LIMIT
  {
    RID(pid, |Held(p, pid).rows|)
  }

  /** What an update did. */
  ghost predicate Updated(p: Pool, p': Pool, r: Result<()>, rid: RID, newRow: seq<Value>, schema: Schema)
    requires |newRow| == |schema| ==> Typed(newRow, schema)
  {
    && HeapOk(p) && HeapOk(p')
    && if rid !in Used(p) || !Fetchable(p, rid.pageID) then
         && r == Err(if Fetchable(p, rid.pageID) then NoSuchSlot else AllPinned)
         && Live(p') == Live(p) && Used(p') == Used(p) && Rooms(p') == Rooms(p)
       else if |newRow| != |schema| then r == Err(WrongColumnCount) && Lost(p, p', rid)
       else
         var bytes, room := Encode(newRow, schema), Rooms(p)[rid.pageID];
         if |bytes| + SLOT_SIZE > room then
           r == Err(Failure(room, bytes)) && Lost(p, p', rid)
         else
           var next := NextRID(p, rid.pageID);
           && r == Ok(())
           && next !in Used(p) && Used(p') == Used(p)[next := Used(p)[rid]]
           && RoomTaken(Rooms(p), Rooms(p'), rid.pageID, |bytes| + SLOT_SIZE)
           && Live(p') == if bytes == [] then Live(p) - {rid}
                          else (Live(p) - {rid})[next := TableRow(Used(p)[rid], bytes)]
  }

  /** The row is gone, and nothing in its place. */
  ghost predicate Lost(p: Pool, p': Pool, rid: RID)
    requires HeapOk(p) && HeapOk(p')
  {
    Live(p') == Live(p) - {rid} && Used(p') == Used(p) && Rooms(p') == Rooms(p)
  }

  /** The page of a RID in use belongs to the table in its header, and its free bytes are its room. */
  lemma OwnerOfRows(p: Pool, rid: RID)
    requires HeapOk(p) && rid.pageID < PAGE_LIMIT
    ensures PoolOk(p)
    ensures InUse(p, rid) ==> Held(p, rid.pageID).owner == HeaderOf(View(p, rid.pageID)).tableID
    ensures InUse(p, rid) ==> Held(p, rid.pageID).room == FreeSpace(View(p, rid.pageID)) == Rooms(p)[rid.pageID]
  {
    hide PoolOk, View, HeaderOf;
    if rid.pageID >= 1 {
      assert PageInv(p, rid.pageID);
    }
  }

  lemma UpdatePinned(p: Pool, rid: RID, newRow: seq<Value>, schema: Schema)
    requires HeapOk(p) && !Fetchable(p, rid.pageID) && (|newRow| == |schema| ==> Typed(newRow, schema))
    ensures Updated(p, p, Err(AllPinned), rid, newRow, schema)
  {
    hide HeapOk, Live, Held, Used, Rooms, Fetchable;
  }

  lemma NotUpdated(p: Pool, p': Pool, rid: RID, newRow: seq<Value>, schema: Schema)
    requires Carries(p, p') && !InUse(p, rid) && Fetchable(p, rid.pageID) &&
             (|newRow| == |schema| ==> Typed(newRow, schema))
    ensures Updated(p, p', Err(NoSuchSlot), rid, newRow, schema)
  {
    hide HeapOk, Live, Held, Used, Rooms, InUse, Fetchable;
    assert rid !in Used(p) by { NotUsed(p, rid); }
    SameLive(p, p');
  }

  lemma NotUsed(p: Pool, rid: RID)
    requires HeapOk(p) && !InUse(p, rid)
    ensures rid !in Used(p)
  {
  }

  /** A heap without the row. */
  ghost predicate Cleared(p: Pool, p': Pool, rid: RID) {
    HeapOk(p) && InUse(p, rid) &&
    Alters(p, p', rid.pageID, Held(p, rid.pageID).(rows := Held(p, rid.pageID).rows[rid.slotID := None]))
  }

  lemma UpdateStuck(p: Pool, p': Pool, rid: RID, newRow: seq<Value>, schema: Schema, e: Error)
    requires Cleared(p, p', rid) && Fetchable(p, rid.pageID) && |newRow| == |schema| && Typed(newRow, schema)
    requires |Encode(newRow, schema)| + SLOT_SIZE > Held(p, rid.pageID).room
    requires e == Failure(Held(p, rid.pageID).room, Encode(newRow, schema))
    ensures Updated(p, p', Err(e), rid, newRow, schema)
  {
    hide HeapOk, Encode, Typed, Live, Used, Held, InUse, Fetchable;
    RemovesRow(p, p', rid);
    RoomHeld(p, rid);
  }

  lemma UpdateLost(p: Pool, p': Pool, p'': Pool, rid: RID, newRow: seq<Value>, schema: Schema, e: Error)
    requires Cleared(p, p', rid) && Fetchable(p, rid.pageID) && Carries(p', p'') &&
             (|newRow| == |schema| ==> Typed(newRow, schema))
    requires if |newRow| != |schema| then e == WrongColumnCount
             else e == Panicked && Reason(Held(p, rid.pageID).room, Encode(newRow, schema)) == Panicked &&
                  |Encode(newRow, schema)| + SLOT_SIZE > Held(p, rid.pageID).room
    ensures Updated(p, p'', Err(e), rid, newRow, schema)
  {
    hide HeapOk, Encode, Typed, Live, Used, Held, InUse, Fetchable;
    RemovesRow(p, p', rid);
    RoomHeld(p, rid);
    SameLive(p', p'');
  }

  lemma RoomHeld(p: Pool, rid: RID)
    requires HeapOk(p) && InUse(p, rid)
    ensures rid in Used(p) && rid.pageID in Rooms(p) && Rooms(p)[rid.pageID] == Held(p, rid.pageID).room
  {
    hide HeapOk, Held;
  }

  lemma UsedOwner(p: Pool, rid: RID)
    requires HeapOk(p) && InUse(p, rid)
    ensures rid in Used(p) && Used(p)[rid] == Held(p, rid.pageID).owner
  {
    hide HeapOk, Held;
  }

  lemma UpdateMade(p: Pool, p1: Pool, p2: Pool, p': Pool, rid: RID, newRow: seq<Value>, schema: Schema)
    requires Cleared(p, p1, rid) && Fetchable(p, rid.pageID) && |newRow| == |schema| && Typed(newRow, schema)
    requires HeapOk(p1) && |Encode(newRow, schema)| + SLOT_SIZE <= Held(p, rid.pageID).room == Held(p1, rid.pageID).room
    requires Alters(p1, p2, rid.pageID,
             WithOneMore(Held(p1, rid.pageID), Held(p, rid.pageID).owner, Encode(newRow, schema)))
    requires Carries(p2, p')
    ensures Updated(p, p', Ok(()), rid, newRow, schema)
  {
    hide HeapOk, Encode, Typed, Live, Used, Held, Rooms, Fetchable;
    RemovesRow(p, p1, rid);
    UsedOwner(p, rid);
    RoomHeld(p, rid);
    assert NextRID(p, rid.pageID) == RID(rid.pageID, |Held(p1, rid.pageID).rows|);
    AddsRow(p1, p2, rid.pageID, Held(p, rid.pageID).owner, AsRow(Encode(newRow, schema)),
      |Encode(newRow, schema)| + SLOT_SIZE);
    SameLive(p2, p');
  }

  lemma UpdatedFrom(was: Pool, p: Pool, p': Pool, r: Result<()>, rid: RID, newRow: seq<Value>, schema: Schema)
    requires Carries(was, p) && (|newRow| == |schema| ==> Typed(newRow, schema))
    requires Fetchable(was, rid.pageID) && Fetchable(p, rid.pageID) && Updated(p, p', r, rid, newRow, schema)
    ensures Updated(was, p', r, rid, newRow, schema)
  {
    hide HeapOk, Encode, Typed, Live, Used, Rooms, Fetchable;
    SameLive(was, p);
    if rid in Used(p) {
      UsedPage(p, rid);
      assert Held(was, rid.pageID) == Held(p, rid.pageID);
    }
  }

  lemma UsedPage(p: Pool, rid: RID)
    requires HeapOk(p) && rid in Used(p)
    ensures InUse(p, rid) && 1 <= rid.pageID < PAGE_LIMIT && rid.pageID in Rooms(p)
  {
  }

  lemma ListsNothing(p: Pool, t: nat, schema: Schema)
    requires HeapOk(p)
    ensures ListsUpTo([], Seen(p, t, schema), RID(1, 0))
  {
    hide HeapOk, Decode, Held;
  }

  lemma TaggedOwn(p: Pool, p': Pool, pid: nat, t: nat)
    requires Carries(p, p') && 1 <= pid < PAGE_LIMIT
    ensures PoolOk(p')
    ensures HeaderOf(View(p', pid)).tableID == t ==> Held(p, pid).owner == t || Held(p, pid).rows == []
    ensures HeaderOf(View(p', pid)).tableID != t ==> Held(p, pid).owner != t || Held(p, pid).rows == []
  {
    hide PoolOk, View, HeaderOf, RowsOf;
    assert PageInv(p', pid);
    assert Held(p', pid) == Held(p, pid);
  }

  lemma BlankAlters(was: Pool, p: Pool, pid: nat)
    requires Carries(was, p) && 1 <= pid < p.store.pageCount && pid < PAGE_LIMIT && pid in p.pageMap
    ensures HeapOk(Changed(p, pid, Blank(pid), true)) && Alters(p, Changed(p, pid, Blank(pid), true), pid, NOTHING)
    ensures SamePins(p, Changed(p, pid, Blank(pid), true)) && Changed(p, pid, Blank(pid), true).store == p.store
    ensures Changed(p, pid, Blank(pid), true).pageMap == p.pageMap
  {
    hide PoolOk, View, HeaderOf, Blank;
    BlankIs(pid);
    ChangedAlters(p, pid, Blank(pid), true);
    ChangedPins(p, pid, Blank(pid), true);
  }

  lemma AltersOn(p: Pool, p1: Pool, p2: Pool, p3: Pool, pid: nat, h: Holding)
    requires Carries(p, p1) && Alters(p1, p2, pid, h) && Carries(p2, p3)
    ensures Alters(p, p3, pid, h)
  {
    hide HeapOk;
  }

  // ----- clearing -----

  /** Page q holds rows of table t. */
  ghost predicate Owns(p: Pool, t: nat, q: nat)
    requires HeapOk(p) && 1 <= q < PAGE_LIMIT
  {
    Held(p, q).owner == t && Held(p, q).rows != []
  }

  /** Pages of table t that can be fetched, or without rows. */
  ghost predicate MayClear(p: Pool, t: nat, pids: seq<nat>)
    requires HeapOk(p)
  {
    forall k :: 0 <= k < |pids| ==>
      1 <= pids[k] < PAGE_LIMIT && Fetchable(p, pids[k]) && (Held(p, pids[k]).owner == t || Held(p, pids[k]).rows == [])
  }

  lemma MayClearOne(p: Pool, t: nat, pids: seq<nat>, k: nat)
    requires HeapOk(p) && MayClear(p, t, pids) && k < |pids|
    ensures Fetchable(p, pids[k])
  {
  }

  ghost predicate ClearsBelow(p: Pool, t: nat, pids: seq<nat>, n: nat)
    requires HeapOk(p)
  {
    forall q: nat :: 1 <= q < n && q < PAGE_LIMIT && Owns(p, t, q) && Fetchable(p, q) ==> q in pids
  }

  ghost predicate ClearsAll(p: Pool, t: nat, pids: seq<nat>)
    requires HeapOk(p)
  {
    forall q: nat :: 1 <= q < PAGE_LIMIT && Owns(p, t, q) && Fetchable(p, q) ==> q in pids
  }

  /** These pages emptied. */
  ghost predicate ClearedThese(p: Pool, p': Pool, pids: seq<nat>) {
    && HeapOk(p) && HeapOk(p') && p.store.pageCount <= p'.store.pageCount
    && forall q: nat :: 1 <= q < PAGE_LIMIT ==> Held(p', q) == if q in pids then NOTHING else Held(p, q)
  }

  lemma NoHigherAgain(p: Pool, p': Pool, p'': Pool)
    requires NoHigher(p, p') && NoHigher(p', p'')
    ensures NoHigher(p, p'')
  {
  }

  lemma SameHeld(p: Pool, p': Pool, q: nat)
    requires Carries(p, p') && 1 <= q < PAGE_LIMIT
    ensures Held(p', q) == Held(p, q)
  {
  }

  ghost predicate AllBelow(pids: seq<nat>, n: nat) {
    forall k :: 0 <= k < |pids| ==> 1 <= pids[k] < n
  }

  lemma OwnNone(p: Pool, t: nat)
    requires HeapOk(p)
    ensures MayClear(p, t, []) && ClearsBelow(p, t, [], 1) && AllBelow([], 1)
  {
  }

  lemma OwnAdded(p: Pool, t: nat, pids: seq<nat>, pid: nat, own: bool)
    requires HeapOk(p) && 1 <= pid < PAGE_LIMIT && MayClear(p, t, pids) && AllBelow(pids, pid)
    requires own ==> Fetchable(p, pid) && (Held(p, pid).owner == t || Held(p, pid).rows == [])
    ensures var pids' := if own then pids + [pid] else pids;
            && MayClear(p, t, pids') && AllBelow(pids', pid + 1)
            && (ClearsBelow(p, t, pids, pid) && (Owns(p, t, pid) && Fetchable(p, pid) ==> own) ==>
               ClearsBelow(p, t, pids', pid + 1))
  {
    hide HeapOk, Held;
  }

  lemma ClearsCounted(p: Pool, t: nat, pids: seq<nat>, n: nat, p': Pool)
    requires Carries(p, p') && AllBelow(pids, n) && p'.store.pageCount <= n
    ensures ClearsBelow(p, t, pids, n) ==> ClearsAll(p, t, pids)
  {
    hide HeapOk, Held, HoldingOf;
    forall q: nat | 1 <= q < PAGE_LIMIT && Owns(p, t, q) ensures q < p.store.pageCount {
      OwnedPage(p, q);
    }
  }

  lemma OwnedPage(p: Pool, q: nat)
    requires HeapOk(p) && 1 <= q < PAGE_LIMIT && Held(p, q).rows != []
    ensures q < p.store.pageCount
  {
    hide PoolOk, View, HeaderOf, Blank;
    assert PageInv(p, q);
    BlankIs(q);
  }

  lemma CountLimit(p: Pool)
    requires HeapOk(p)
    ensures 1 <= p.store.pageCount <= PAGE_LIMIT
  {
  }

  lemma ClearedNone(p: Pool, p': Pool, pids: seq<nat>)
    requires Carries(p, p')
    ensures ClearedThese(p, p', pids[..0])
  {
  }

  lemma ClearedOneMore(p: Pool, p': Pool, p'': Pool, pids: seq<nat>, k: nat)
    requires k < |pids| && ClearedThese(p, p', pids[..k]) && Alters(p', p'', pids[k], NOTHING)
    ensures ClearedThese(p, p'', pids[..k + 1]) && p'.store.pageCount <= p''.store.pageCount
  {
    hide HeapOk, Held;
    assert pids[..k + 1] == pids[..k] + [pids[k]];
  }

  lemma ClearedAll(p: Pool, p': Pool, t: nat, pids: seq<nat>)
    requires ClearedThese(p, p', pids) && MayClear(p, t, pids) && ClearsAll(p, t, pids)
    ensures Clears(p, p', t)
  {
    hide HeapOk, PoolOk, Held, Fetchable;
    forall q: nat | 1 <= q < PAGE_LIMIT
      ensures Held(p', q) == if Held(p, q).owner == t && Fetchable(p, q) then NOTHING else Held(p, q)
    {
      if Held(p, q).rows == [] {
        HeldNothing(p, q);
      }
      if q in pids {
        var j :| 0 <= j < |pids| && pids[j] == q;
      }
    }
  }

  lemma HeldNothing(p: Pool, q: nat)
    requires HeapOk(p) && 1 <= q < PAGE_LIMIT && Held(p, q).rows == []
    ensures Held(p, q) == NOTHING
  {
    hide PoolOk, View, HeaderOf, RowsOf;
    assert PageInv(p, q);
  }
}
