// The page file and the buffer pool, changed in place.
module BufferPool {
  import opened Sequences
  import opened Bytes
  import opened Results
  import opened PageModel
  import opened PoolModel
  import opened SlottedPage

  /** The file as an array of pages; holes read as zeros. */
  class DiskManager {
    var file: seq<PageData>
    var pageCount: nat

    /** Open a file: as many pages as it holds, but at least one. */
    constructor (contents: seq<PageData>)
      requires forall i :: 0 <= i < |contents| ==> |contents[i]| == PAGE_SIZE
      ensures StoreOk(State()) && State() == Store(contents, if |contents| == 0 then 1 else |contents|)
    {
      file := contents;
      pageCount := if |contents| == 0 then 1 else |contents|;
    }

    ghost function State(): Store
      reads this
    {
      Store(file, pageCount)
    }

    /** Read a page; past the end, or under another number, it is blank. */
    method ReadPage(pageID: nat) returns (page: Page)
      requires StoreOk(State())
      ensures fresh(page) && fresh(page.Data) && page.Data.Length == PAGE_SIZE && page.ID == pageID && !page.Dirty
      ensures page.Data[..] == StoreRead(State(), pageID)
    {
      if pageID >= |file| {
        page := new Page(pageID);
        return;
      }
      page := new Page.Read(pageID, file[pageID]);
      var h := page.ReadHeader();
      if h.pageID != pageID {
        page := new Page(pageID);
      }
    }

    method WritePage(page: Page)
      requires StoreOk(State()) && page.Data.Length == PAGE_SIZE
      modifies this, page`Dirty
      ensures State() == StoreWrite(old(State()), page.ID, page.Data[..]) && !page.Dirty
    {
      file := Extended(file, page.ID + 1);
      file := file[page.ID := page.Data[..]];
      if page.ID >= pageCount {
        pageCount := page.ID + 1;
      }
      page.Dirty := false;
    }

    method AllocatePage() returns (pageID: nat)
      modifies this
      ensures pageID == old(pageCount) && pageCount == old(pageCount) + 1 && file == old(file)
    {
      pageID := pageCount;
      pageCount := pageCount + 1;
    }
  }

  lemma PoolParts(p: Pool)
    requires PoolOk(p)
    ensures StoreOk(p.store) && NoRepeats(p.lru)
  {
  }

  lemma LruInFrames(p: Pool)
    requires PoolOk(p)
    ensures forall j :: 0 <= j < |p.lru| ==> PoolModel.Occupied(p, p.lru[j])
  {
    forall j | 0 <= j < |p.lru| ensures PoolModel.Occupied(p, p.lru[j]) {
      assert p.lru[j] in p.lru;
    }
  }

  lemma MapsTo(p: Pool, pid: nat)
    requires PoolOk(p) && pid in p.pageMap
    ensures Maps(p, pid, p.pageMap[pid])
  {
  }

  datatype Frame = Frame(Page: Page?, PinCount: nat)

  class BufferPool {
    const frames: array<Frame>
    var pageMap: map<nat, nat>
    var lruList: seq<nat>
    const disk: DiskManager

    /** The pages in the pool and their bytes. */
    ghost function Pages(): set<object>
      reads this, frames
    {
      (set i | 0 <= i < frames.Length && frames[i].Page != null :: frames[i].Page as object) +
      (set i | 0 <= i < frames.Length && frames[i].Page != null :: frames[i].Page.Data as object)
    }

    /** Two frames never share a page or its bytes. */
    ghost predicate Separate()
      reads this, frames
    {
      && (forall i :: 0 <= i < frames.Length && frames[i].Page != null ==> frames[i].Page.Data.Length == PAGE_SIZE)
      && (forall i, j :: 0 <= i < j < frames.Length && frames[i].Page != null && frames[j].Page != null ==>
            frames[i].Page != frames[j].Page && frames[i].Page.Data != frames[j].Page.Data)
    }

    ghost function FrameState(f: Frame): FrameVal
      reads if f.Page != null then {f.Page as object, f.Page.Data} else {}
    {
      if f.Page == null then FrameVal(None, f.PinCount)
      else FrameVal(Some(CachedPage(f.Page.ID, f.Page.Data[..], f.Page.Dirty)), f.PinCount)
    }

    ghost function State(): (p: Pool)
      reads this, frames, disk, Pages()
      ensures |p.frames| == frames.Length
    {
      Pool(seq(frames.Length, i requires 0 <= i < frames.Length reads this, frames, Pages() => FrameState(frames[i])),
           pageMap, lruList, disk.State())
    }

    ghost predicate Valid()
      reads this, frames, disk, Pages()
    {
      Separate() && PoolOk(State())
    }

    constructor (capacity: nat, disk: DiskManager)
      requires StoreOk(disk.State())
      ensures Valid() && this.disk == disk && fresh(frames) && Pages() == {}
      ensures State() == Pool(seq(capacity, _ => EMPTY_FRAME), map[], [], disk.State())
    {
      frames := new Frame[capacity](_ => Frame(null, 0));
      pageMap, lruList := map[], [];
      this.disk := disk;
    }

    method FindFreeFrame() returns (r: Option<nat>)
      requires Valid()
      ensures r == FirstFree(State().frames, 0)
    {
      for i := 0 to frames.Length
        invariant FirstFree(State().frames, 0) == FirstFree(State().frames, i)
      {
        if frames[i].Page == null {
          return Some(i);
        }
      }
      return None;
    }

    /** Put out the least recently fetched unpinned page; false if there is none. */
    method EvictPage() returns (ok: bool)
      requires Valid()
      modifies this, frames, disk, Pages()
      ensures Valid() && Pages() <= old(Pages())
      ensures ok == VictimOf(old(State())).Some?
      ensures State() == if ok then Evict(old(State()), VictimOf(old(State())).value) else old(State())
    {
      hide PoolOk, StoreOk, Evict;
      ghost var was := State();
      LruInFrames(was);
      var k: nat := |lruList|;
      while k > 0
        invariant k <= |lruList|
        invariant forall j :: 0 <= j < |lruList| ==> lruList[j] < frames.Length
        invariant Victim(lruList, was.frames, |lruList|) == Victim(lruList, was.frames, k)
      {
        var idx := lruList[k - 1];
        assert PoolModel.Occupied(was, idx);
        if frames[idx].PinCount == 0 {
          EvictFrame(idx, k - 1);
          return true;
        }
        k := k - 1;
      }
      return false;
    }

    /** Put out the page of frame idx, at position k of the LRU list. */
    method EvictFrame(idx: nat, k: nat)
      requires Valid() && PoolModel.Occupied(State(), idx) && k < |lruList| && lruList[k] == idx
      modifies this, frames, disk, Pages()
      ensures Valid() && Pages() <= old(Pages())
      ensures State() == Evict(old(State()), idx)
    {
      hide PoolOk, StoreOk, StoreWrite, Without;
      ghost var was := State();
      PoolParts(was);
      EvictOk(was, idx);
      WithoutAt(lruList, k);
      var page := frames[idx].Page;
      if page.Dirty {
        disk.WritePage(page);
      }
      pageMap := pageMap - {page.ID};
      lruList := lruList[..k] + lruList[k + 1..];
      frames[idx] := Frame(null, 0);
      assert State().frames == Evict(was, idx).frames;
    }

    /** The page with this number, pinned once more; null if it is absent and every frame is pinned. */
    method FetchPage(pageID: nat) returns (page: Page?)
      requires Valid()
      modifies this, frames, disk, Pages()
      ensures Valid() && fresh(Pages() - old(Pages()))
      ensures page == null <==> Fetch(old(State()), pageID).None?
      ensures page == null ==> State() == old(State())
      ensures page != null ==> State() == Fetch(old(State()), pageID).value
      ensures page != null ==> pageID in pageMap && page == frames[pageMap[pageID]].Page
    {
      hide PoolOk, Load, Touch, MakeRoom;
      ghost var was := State();
      if pageID in pageMap {
        var idx := pageMap[pageID];
        MapsTo(was, pageID);
        page := TouchFrame(pageID, idx);
        return;
      }
      var frameIdx := ProvideFrame();
      if frameIdx.None? {
        return null;
      }
      page := LoadFrame(pageID, frameIdx.value);
    }

    /** A free frame, made by evicting a page if need be. */
    method ProvideFrame() returns (frameIdx: Option<nat>)
      requires Valid()
      modifies this, frames, disk, Pages()
      ensures Valid() && Pages() <= old(Pages())
      ensures frameIdx.Some? <==> MakeRoom(old(State())).Some?
      ensures frameIdx.None? ==> State() == old(State())
      ensures frameIdx.Some? ==> (State(), frameIdx.value) == MakeRoom(old(State())).value
    {
      hide PoolOk, Evict, VictimOf;
      ghost var was := State();
      frameIdx := FindFreeFrame();
      Unmoved();
      if frameIdx.None? {
        var ok := EvictPage();
        if !ok {
          return None;
        }
        OnlyFree(was, VictimOf(was).value);
        label Evicted:
        frameIdx := FindFreeFrame();
        Unmoved@Evicted();
      }
    }

    method TouchFrame(pageID: nat, idx: nat) returns (page: Page)
      requires Valid() && pageID in pageMap && pageMap[pageID] == idx && Maps(State(), pageID, idx)
      modifies this, frames
      ensures Valid() && Pages() == old(Pages()) && pageMap == old(pageMap)
      ensures State() == Touch(old(State()), idx) && page == frames[idx].Page
    {
      hide PoolOk, StoreOk, Without;
      TouchOk(State(), idx);
      frames[idx] := frames[idx].(PinCount := frames[idx].PinCount + 1);
      lruList := [idx] + Without(lruList, idx);
      page := frames[idx].Page;
      assert State().frames == Touch(old(State()), idx).frames;
    }

    method LoadFrame(pageID: nat, idx: nat) returns (page: Page)
      requires Valid() && pageID !in pageMap && idx < frames.Length && frames[idx].Page == null
      modifies this, frames
      ensures Valid() && fresh(Pages() - old(Pages()))
      ensures StoreOk(old(State()).store) && State() == Load(old(State()), pageID, idx)
      ensures pageID in pageMap && page == frames[pageMap[pageID]].Page
    {
      hide PoolOk, StoreOk, StoreRead;
      PoolParts(State());
      LoadOk(State(), pageID, idx);
      page := disk.ReadPage(pageID);
      frames[idx] := Frame(page, 1);
      lruList := [idx] + lruList;
      pageMap := pageMap[pageID := idx];
      assert State().frames == Load(old(State()), pageID, idx).frames;
    }

    /** Give back one pin, reporting whether the page was changed. */
    method UnpinPage(pageID: nat, dirty: bool)
      requires Valid()
      modifies frames, Pages()
      ensures Valid() && Pages() == old(Pages())
      ensures State() == Unpin(old(State()), pageID, dirty)
      ensures pageMap == old(pageMap) && forall i :: 0 <= i < frames.Length ==> frames[i].Page == old(frames[i].Page)
    {
      hide PoolOk;
      UnpinKeepsViews(State(), pageID, dirty, 1);
      if pageID in pageMap {
        MapsTo(State(), pageID);
        UnpinFrame(pageMap[pageID], dirty);
      }
    }

    method UnpinFrame(idx: nat, dirty: bool)
      requires Separate() && idx < frames.Length && frames[idx].Page != null
      modifies frames, frames[idx].Page`Dirty
      ensures Pages() == old(Pages()) && Separate()
      ensures forall i :: 0 <= i < frames.Length ==> frames[i].Page == old(frames[i].Page)
      ensures var f := old(State()).frames[idx];
              State().frames == old(State()).frames[idx :=
                FrameVal(if dirty then Some(f.page.value.(dirty := true)) else f.page,
                  if f.pins > 0 then f.pins - 1 else f.pins)]
    {
      if frames[idx].PinCount > 0 {
        frames[idx] := frames[idx].(PinCount := frames[idx].PinCount - 1);
      }
      if dirty {
        frames[idx].Page.Dirty := true;
      }
      SamePages();
    }

    twostate lemma SamePages()
      requires forall i :: 0 <= i < frames.Length ==> frames[i].Page == old(frames[i].Page)
      ensures Pages() == old(Pages())
    {
      forall o | o in Pages() ensures o in old(Pages()) {
        var i :| 0 <= i < frames.Length && frames[i].Page != null && (o == frames[i].Page || o == frames[i].Page.Data);
        assert old(frames[i].Page) == frames[i].Page;
      }
      forall o | o in old(Pages()) ensures o in Pages() {
        var i :| 0 <= i < frames.Length && old(frames[i].Page) != null &&
          (o == old(frames[i].Page) || o == old(frames[i].Page.Data));
        assert old(frames[i].Page) == frames[i].Page;
      }
    }

    /** Write every dirty page. */
    method FlushAll()
      requires Valid()
      modifies disk, Pages()
      ensures Valid() && Pages() == old(Pages())
      ensures State() == PoolModel.FlushAll(old(State()))
    {
      ghost var was := State();
      for i := 0 to frames.Length
        invariant Valid() && State() == FlushTo(was, i)
      {
        FlushFrame(i, was);
      }
    }

    method FlushFrame(i: nat, ghost was: Pool)
      requires Valid() && PoolOk(was) && i < frames.Length == |was.frames| && State() == FlushTo(was, i)
      modifies disk, Pages()
      ensures Valid() && State() == FlushTo(was, i + 1)
    {
      hide PoolOk, StoreOk, StoreWrite;
      PoolParts(State());
      FlushToOk(was, i + 1);
      var page := frames[i].Page;
      if page != null && page.Dirty {
        disk.WritePage(page);
      }
      assert State().frames == FlushTo(was, i + 1).frames;
    }

    /** Computing something elsewhere leaves the pool alone. */
    twostate lemma Unmoved()
      requires unchanged(this) && unchanged(frames) && unchanged(disk) && forall o :: o in old(Pages()) ==> unchanged(o)
      ensures Pages() == old(Pages()) && State() == old(State()) && Valid() == old(Valid())
    {
      assert State().frames == old(State()).frames;
    }

    /** A client that changes a fetched page in place changes that page of the pool and nothing else. */
    twostate lemma ClientChange(pageID: nat)
      requires old(Valid()) && pageID in pageMap && pageMap[pageID] < frames.Length &&
               frames[pageMap[pageID]].Page != null
      requires unchanged(this) && unchanged(frames) && unchanged(disk)
      requires var page := frames[pageMap[pageID]].Page;
               forall o :: o in Pages() && o != page && o != page.Data ==> unchanged(o)
      ensures pageID in old(State()).pageMap
      ensures var page := frames[pageMap[pageID]].Page;
              Valid() && State() == Changed(old(State()), pageID, page.Data[..], page.Dirty)
    {
      hide PoolOk;
      var page := frames[pageMap[pageID]].Page;
      var was := old(State());
      MapsTo(was, pageID);
      ChangedView(was, pageID, page.Data[..], page.Dirty, pageID);
      forall i | 0 <= i < frames.Length
        ensures State().frames[i] == Changed(was, pageID, page.Data[..], page.Dirty).frames[i]
      {
        if i != pageMap[pageID] && frames[i].Page != null {
          assert frames[i].Page as object in Pages() && frames[i].Page.Data as object in Pages();
          assert frames[i].Page != page && frames[i].Page.Data != page.Data;
        }
      }
      assert State().frames == Changed(was, pageID, page.Data[..], page.Dirty).frames;
    }
  }

  /** After an eviction from a full pool, the frame made free is the only free one. */
  lemma OnlyFree(p: Pool, i: nat)
    requires PoolOk(p) && PoolModel.Occupied(p, i) && FirstFree(p.frames, 0).None?
    ensures FirstFree(Evict(p, i).frames, 0) == Some(i)
  {
    var f := Evict(p, i).frames;
    assert f[i].page.None? && forall j :: 0 <= j < |f| && j != i ==> f[j].page.Some?;
  }
}
