// The page file and the buffer pool in front of it, as values.
module PoolModel {
  import opened Sequences
  import opened Bytes
  import opened PageModel

  // ----- the page file -----

  /** The pages of the file, and the number of pages handed out so far. */
  datatype Store = Store(file: seq<PageData>, pageCount: nat)

  ghost predicate StoreOk(s: Store) {
    && (forall i :: 0 <= i < |s.file| ==> |s.file[i]| == PAGE_SIZE)
    && |s.file| <= s.pageCount && s.pageCount >= 1
  }

  /** A page past the end of the file, or one that does not carry its own number, reads as blank. */
  function StoreRead(s: Store, pid: nat): (d: PageData)
    requires StoreOk(s)
    ensures |d| == PAGE_SIZE
  {
    if pid >= |s.file| || HeaderOf(s.file[pid]).pageID != pid then Blank(pid) else s.file[pid]
  }

  /** The file made long enough for n pages, with holes of zeros. */
  function Extended(file: seq<PageData>, n: nat): (r: seq<PageData>)
    ensures |r| >= n && |r| >= |file|
  {
    if |file| >= n then file else file + seq(n - |file|, _ => Zeros(PAGE_SIZE))
  }

  function StoreWrite(s: Store, pid: nat, data: PageData): Store {
    Store(Extended(s.file, pid + 1)[pid := data], if pid >= s.pageCount then pid + 1 else s.pageCount)
  }

  /** What a page reads as right after it was written. */
  function AsRead(pid: nat, data: PageData): PageData
    requires |data| == PAGE_SIZE
  {
    if HeaderOf(data).pageID == pid then data else Blank(pid)
  }

  lemma ZerosHaveNoName()
    ensures HeaderOf(Zeros(PAGE_SIZE)).pageID == 0
  {
    ZerosAreZero(8);
    assert Zeros(PAGE_SIZE)[0..8] == Zeros(8);
  }

  lemma {:induction false} ZerosAreZero(n: nat)
    ensures FromLittleEndian(Zeros(n)) == 0
  {
    if n > 0 {
      assert Zeros(n)[1..] == Zeros(n - 1);
      ZerosAreZero(n - 1);
    }
  }

  /** Writing page pid to an empty file leaves zeros where page 0 is, and these carry its number. */
  predicate LeavesHole(s: Store, pid: nat) {
    s.file == [] && pid >= 1
  }

  /** A write changes what its page reads as, and no other page but page 0 of an empty file. */
  lemma WriteThenRead(s: Store, pid: nat, data: PageData, q: nat)
    requires StoreOk(s) && |data| == PAGE_SIZE
    ensures StoreOk(StoreWrite(s, pid, data)) && StoreWrite(s, pid, data).file != []
    ensures StoreRead(StoreWrite(s, pid, data), q) ==
            if q == pid then AsRead(pid, data)
            else if q == 0 && LeavesHole(s, pid) then Zeros(PAGE_SIZE)
            else StoreRead(s, q)
  {
    hide HeaderOf, Blank;
    ZerosHaveNoName();
    var file := Extended(s.file, pid + 1);
    assert forall i :: 0 <= i < |file| ==> file[i] == if i < |s.file| then s.file[i] else Zeros(PAGE_SIZE);
  }

  lemma ZerosAreNotBlank()
    ensures Zeros(PAGE_SIZE) != Blank(0)
  {
    hide Blank;
    BlankIs(0);
    ZerosAreZero(2);
    assert Zeros(PAGE_SIZE)[12..14] == Zeros(2);
  }

  /** Page 0 reads the same after a write of another page exactly if the file was not empty. */
  lemma HoleAtZero(s: Store, pid: nat, data: PageData)
    requires StoreOk(s) && |data| == PAGE_SIZE && pid >= 1
    ensures StoreRead(StoreWrite(s, pid, data), 0) == StoreRead(s, 0) <==> s.file != []
  {
    hide StoreWrite, Blank, HeaderOf;
    WriteThenRead(s, pid, data, 0);
    ZerosAreNotBlank();
  }

  // ----- the pool -----

  datatype CachedPage = CachedPage(id: nat, data: PageData, dirty: bool)
  datatype FrameVal = FrameVal(page: Option<CachedPage>, pins: nat)
  datatype Pool = Pool(frames: seq<FrameVal>, pageMap: map<nat, nat>, lru: seq<nat>, store: Store)

  const EMPTY_FRAME := FrameVal(None, 0)

  ghost predicate NoRepeats(s: seq<nat>) {
    forall i, j :: 0 <= i < j < |s| ==> s[i] != s[j]
  }

  ghost predicate Occupied(p: Pool, i: nat) {
    i < |p.frames| && p.frames[i].page.Some?
  }

  ghost predicate Maps(p: Pool, pid: nat, i: nat) {
    Occupied(p, i) && p.frames[i].page.value.id == pid
  }

  /** The page map is a bijection with the occupied frames, and the LRU list holds each of them once. */
  ghost predicate PoolOk(p: Pool) {
    && StoreOk(p.store)
    && (forall pid :: pid in p.pageMap ==> Maps(p, pid, p.pageMap[pid]))
    && (forall i: nat :: Occupied(p, i) ==>
          && p.frames[i].page.value.id in p.pageMap && p.pageMap[p.frames[i].page.value.id] == i
          && |p.frames[i].page.value.data| == PAGE_SIZE)
    && (forall i :: 0 <= i < |p.frames| && !Occupied(p, i) ==> p.frames[i].pins == 0)
    && NoRepeats(p.lru)
    && (forall i: nat :: i in p.lru <==> Occupied(p, i))
  }

  /** What the system as a whole holds as page pid: the cached copy, or else what the file reads as. */
  ghost function View(p: Pool, pid: nat): (d: PageData)
    requires PoolOk(p)
    ensures |d| == PAGE_SIZE
  {
    if pid in p.pageMap then p.frames[p.pageMap[pid]].page.value.data else StoreRead(p.store, pid)
  }

  /** Cached, changed, but not reported as dirty. */
  ghost predicate Stale(p: Pool, pid: nat)
    requires PoolOk(p)
  {
    pid in p.pageMap && !p.frames[p.pageMap[pid]].page.value.dirty && View(p, pid) != StoreRead(p.store, pid)
  }

  /** Cached without its own number in the header. */
  ghost predicate Misnamed(p: Pool, pid: nat)
    requires PoolOk(p)
  {
    pid in p.pageMap && HeaderOf(View(p, pid)).pageID != pid
  }

  ghost predicate Disciplined(p: Pool, pid: nat)
    requires PoolOk(p)
  {
    !Stale(p, pid) && !Misnamed(p, pid)
  }

  // ----- frames and the LRU list -----

  function FirstFree(frames: seq<FrameVal>, from: nat): (r: Option<nat>)
    requires from <= |frames|
    ensures r.Some? ==> from <= r.value < |frames| && frames[r.value].page.None?
    ensures r.Some? ==> forall i :: from <= i < r.value ==> frames[i].page.Some?
    ensures r.None? ==> forall i :: from <= i < |frames| ==> frames[i].page.Some?
    decreases |frames| - from
  {
    if from == |frames| then None
    else if frames[from].page.None? then Some(from)
    else FirstFree(frames, from + 1)
  }

  /** The position of the last entry among the first n whose frame is not pinned. */
  function Victim(lru: seq<nat>, frames: seq<FrameVal>, n: nat): (r: Option<nat>)
    requires n <= |lru| && forall j :: 0 <= j < |lru| ==> lru[j] < |frames|
    ensures r.Some? ==> r.value < n && frames[lru[r.value]].pins == 0
    ensures r.Some? ==> forall j :: r.value < j < n ==> frames[lru[j]].pins > 0
    ensures r.None? ==> forall j :: 0 <= j < n ==> frames[lru[j]].pins > 0
  {
    if n == 0 then None
    else if frames[lru[n - 1]].pins == 0 then Some(n - 1)
    else Victim(lru, frames, n - 1)
  }

  function Without(s: seq<nat>, x: nat): seq<nat> {
    if s == [] then [] else if s[0] == x then s[1..] else [s[0]] + Without(s[1..], x)
  }

  lemma {:induction false} WithoutIs(s: seq<nat>, x: nat)
    requires NoRepeats(s)
    ensures NoRepeats(Without(s, x))
    ensures forall y :: y in Without(s, x) <==> y in s && y != x
  {
    if s != [] {
      assert s == [s[0]] + s[1..];
      WithoutIs(s[1..], x);
      var rest := Without(s[1..], x);
      assert forall i :: 0 <= i < |rest| ==> rest[i] in rest;
    }
  }

  lemma {:induction false} WithoutAt(s: seq<nat>, k: nat)
    requires NoRepeats(s) && k < |s|
    ensures Without(s, s[k]) == s[..k] + s[k + 1..]
  {
    if k > 0 {
      WithoutAt(s[1..], k - 1);
      assert s[..k] == [s[0]] + s[1..][..k - 1];
      assert s[1..][k..] == s[k + 1..];
    }
  }

  // ----- the operations -----

  /** Put the page of frame i out, writing it first if it is dirty. */
  function Evict(p: Pool, i: nat): Pool
    requires i < |p.frames| && p.frames[i].page.Some?
  {
    var page := p.frames[i].page.value;
    Pool(p.frames[i := EMPTY_FRAME], p.pageMap - {page.id}, Without(p.lru, i),
         if page.dirty then StoreWrite(p.store, page.id, page.data) else p.store)
  }

  /** Read page pid into the free frame i, pinned once, as the most recently fetched one. */
  function Load(p: Pool, pid: nat, i: nat): Pool
    requires i < |p.frames| && StoreOk(p.store)
  {
    Pool(p.frames[i := FrameVal(Some(CachedPage(pid, StoreRead(p.store, pid), false)), 1)],
         p.pageMap[pid := i], [i] + p.lru, p.store)
  }

  function Touch(p: Pool, i: nat): Pool
    requires i < |p.frames|
  {
    p.(frames := p.frames[i := p.frames[i].(pins := p.frames[i].pins + 1)], lru := [i] + Without(p.lru, i))
  }

  lemma WriteKeepsStore(s: Store, pid: nat, data: PageData)
    requires StoreOk(s) && |data| == PAGE_SIZE
    ensures StoreOk(StoreWrite(s, pid, data))
  {
    WriteThenRead(s, pid, data, 1);
  }

  lemma EvictOk(p: Pool, i: nat)
    requires PoolOk(p) && Occupied(p, i)
    ensures PoolOk(Evict(p, i)) && Evict(p, i).frames[i] == EMPTY_FRAME
  {
    hide StoreOk, StoreWrite, Without, NoRepeats;
    var page := p.frames[i].page.value;
    WithoutIs(p.lru, i);
    WriteKeepsStore(p.store, page.id, page.data);
    var p' := Evict(p, i);
    forall j: nat ensures Occupied(p', j) <==> Occupied(p, j) && j != i {
    }
    forall pid | pid in p'.pageMap ensures Maps(p', pid, p'.pageMap[pid]) {
      assert Maps(p, pid, p.pageMap[pid]);
    }
    forall j: nat | Occupied(p', j)
      ensures p'.frames[j].page.value.id in p'.pageMap && p'.pageMap[p'.frames[j].page.value.id] == j
      ensures |p'.frames[j].page.value.data| == PAGE_SIZE
    {
      assert Occupied(p, j);
    }
    forall j | 0 <= j < |p'.frames| && !Occupied(p', j) ensures p'.frames[j].pins == 0 {
      assert j == i || !Occupied(p, j);
    }
  }

  lemma LoadOk(p: Pool, pid: nat, i: nat)
    requires PoolOk(p) && i < |p.frames| && p.frames[i].page.None? && pid !in p.pageMap
    ensures PoolOk(Load(p, pid, i))
  {
    hide StoreOk, StoreRead;
    var p' := Load(p, pid, i);
    forall j: nat ensures Occupied(p', j) <==> Occupied(p, j) || j == i {
    }
    assert i !in p.lru;
    assert forall j: nat :: j in p'.lru <==> j == i || j in p.lru;
    forall q | q in p'.pageMap ensures Maps(p', q, p'.pageMap[q]) {
      assert q != pid ==> Maps(p, q, p.pageMap[q]);
    }
    forall j: nat | Occupied(p', j)
      ensures p'.frames[j].page.value.id in p'.pageMap && p'.pageMap[p'.frames[j].page.value.id] == j
      ensures |p'.frames[j].page.value.data| == PAGE_SIZE
    {
      assert j != i ==> Occupied(p, j);
    }
  }

  lemma TouchOk(p: Pool, i: nat)
    requires PoolOk(p) && Occupied(p, i)
    ensures PoolOk(Touch(p, i))
  {
    hide StoreOk, Without;
    var p' := Touch(p, i);
    WithoutIs(p.lru, i);
    assert forall j: nat :: j in p'.lru <==> j == i || j in Without(p.lru, i);
    forall j: nat ensures Occupied(p', j) <==> Occupied(p, j) {
    }
    forall q | q in p'.pageMap ensures Maps(p', q, p'.pageMap[q]) {
      assert Maps(p, q, p.pageMap[q]);
    }
    forall j: nat | Occupied(p', j)
      ensures p'.frames[j].page.value.id in p'.pageMap && p'.pageMap[p'.frames[j].page.value.id] == j
      ensures |p'.frames[j].page.value.data| == PAGE_SIZE
    {
      assert Occupied(p, j);
    }
  }

  /** The frame to evict from: the least recently fetched one that is not pinned. */
  function VictimOf(p: Pool): (r: Option<nat>)
    requires PoolOk(p)
    ensures r.Some? ==> Occupied(p, r.value) && p.frames[r.value].pins == 0
    ensures r.None? ==> forall i: nat :: Occupied(p, i) ==> p.frames[i].pins > 0
  {
    assert forall j :: 0 <= j < |p.lru| ==> p.lru[j] in p.lru && Occupied(p, p.lru[j]);
    match Victim(p.lru, p.frames, |p.lru|)
    case None =>
      assert forall i: nat :: Occupied(p, i) ==> i in p.lru;
      None
    case Some(k) => Some(p.lru[k])
  }

  /** The pool with a free frame, and that frame; None if every frame is taken and pinned. */
  function MakeRoom(p: Pool): (r: Option<(Pool, nat)>)
    requires PoolOk(p)
    ensures r.Some? ==> PoolOk(r.value.0) && r.value.1 < |r.value.0.frames| && r.value.0.frames[r.value.1].page.None?
    ensures r.Some? ==> forall pid :: pid in r.value.0.pageMap ==> pid in p.pageMap
  {
    match FirstFree(p.frames, 0)
    case Some(i) => Some((p, i))
    case None =>
      match VictimOf(p)
      case None => None
      case Some(i) => EvictOk(p, i); Some((Evict(p, i), i))
  }

  /** None if the page is absent and every frame is pinned. */
  function Fetch(p: Pool, pid: nat): (r: Option<Pool>)
    requires PoolOk(p)
    ensures r.Some? ==> PoolOk(r.value) && pid in r.value.pageMap
  {
    if pid in p.pageMap then TouchOk(p, p.pageMap[pid]); Some(Touch(p, p.pageMap[pid]))
    else
      match MakeRoom(p)
      case None => None
      case Some((p', i)) => LoadOk(p', pid, i); Some(Load(p', pid, i))
  }

  function Unpin(p: Pool, pid: nat, dirty: bool): Pool
    requires PoolOk(p)
  {
    if pid !in p.pageMap then p
    else
      var i := p.pageMap[pid];
      var f := p.frames[i];
      p.(frames := p.frames[i := FrameVal(if dirty then Some(f.page.value.(dirty := true)) else f.page,
                                          if f.pins > 0 then f.pins - 1 else f.pins)])
  }

  /** Write the dirty pages among the first n frames. */
  function FlushTo(p: Pool, n: nat): (r: Pool)
    requires n <= |p.frames|
    ensures |r.frames| == |p.frames|
  {
    if n == 0 then p
    else
      var p' := FlushTo(p, n - 1);
      match p'.frames[n - 1].page
      case None => p'
      case Some(page) =>
        if page.dirty
        then p'.(frames := p'.frames[n - 1 := p'.frames[n - 1].(page := Some(page.(dirty := false)))],
                 store := StoreWrite(p'.store, page.id, page.data))
        else p'
  }

  function FlushAll(p: Pool): Pool { FlushTo(p, |p.frames|) }

  /** A pool of empty frames over the same file, its page count taken from the file's size. */
  function Reopened(s: Store, capacity: nat): Pool {
    Pool(seq(capacity, _ => EMPTY_FRAME), map[], [], Store(s.file, if |s.file| == 0 then 1 else |s.file|))
  }

  // ----- the pool with its file is one map from pages to contents -----

  /** Evicting frame i writes a page other than 0 to an empty file. */
  ghost predicate EvictLeavesHole(p: Pool, i: nat)
    requires Occupied(p, i)
  {
    p.frames[i].page.value.dirty && LeavesHole(p.store, p.frames[i].page.value.id)
  }

  lemma EvictView(p: Pool, i: nat, q: nat)
    requires PoolOk(p) && Occupied(p, i)
    ensures PoolOk(Evict(p, i))
    ensures var v, v' := View(p, q), View(Evict(p, i), q);
            if q == 0 && 0 !in p.pageMap && EvictLeavesHole(p, i) then v' != v
            else if Disciplined(p, q) || q !in p.pageMap || p.pageMap[q] != i then v' == v
            else v' == v || v' == AsRead(q, v) || v' == StoreRead(p.store, q)
  {
    hide StoreOk, StoreWrite, StoreRead, HeaderOf, Without;
    EvictOk(p, i);
    var page := p.frames[i].page.value;
    WriteThenRead(p.store, page.id, page.data, q);
    if page.id >= 1 { HoleAtZero(p.store, page.id, page.data); }
    if q in p.pageMap {
      assert Maps(p, q, p.pageMap[q]);
    }
  }

  /** Making room evicts a page that is written to an empty file. */
  ghost predicate RoomLeavesHole(p: Pool)
    requires PoolOk(p)
  {
    FirstFree(p.frames, 0).None? && VictimOf(p).Some? && EvictLeavesHole(p, VictimOf(p).value)
  }

  lemma RoomView(p: Pool, q: nat)
    requires PoolOk(p) && MakeRoom(p).Some?
    ensures var v, v' := View(p, q), View(MakeRoom(p).value.0, q);
            if q == 0 && 0 !in p.pageMap && RoomLeavesHole(p) then v' != v
            else if Disciplined(p, q) || q !in p.pageMap then v' == v
            else v' == v || v' == AsRead(q, v) || v' == StoreRead(p.store, q)
  {
    hide StoreOk, StoreRead, HeaderOf, Without, Evict, EvictLeavesHole;
    if q in p.pageMap {
      assert Maps(p, q, p.pageMap[q]);
    }
    if FirstFree(p.frames, 0).None? {
      EvictView(p, VictimOf(p).value, q);
    }
  }

  lemma LoadView(p: Pool, pid: nat, i: nat, q: nat)
    requires PoolOk(p) && i < |p.frames| && p.frames[i].page.None? && pid !in p.pageMap
    ensures PoolOk(Load(p, pid, i)) && View(Load(p, pid, i), q) == View(p, q)
  {
    hide StoreOk, StoreRead;
    LoadOk(p, pid, i);
    if q in p.pageMap {
      assert Maps(p, q, p.pageMap[q]);
    }
  }

  lemma TouchView(p: Pool, i: nat, q: nat)
    requires PoolOk(p) && Occupied(p, i)
    ensures PoolOk(Touch(p, i)) && View(Touch(p, i), q) == View(p, q)
  {
    hide StoreOk, StoreRead, Without;
    TouchOk(p, i);
    if q in p.pageMap {
      assert Maps(p, q, p.pageMap[q]);
    }
  }

  /** Fetching pid writes a page other than 0 to an empty file. */
  ghost predicate FetchLeavesHole(p: Pool, pid: nat)
    requires PoolOk(p)
  {
    pid !in p.pageMap && RoomLeavesHole(p)
  }

  /**
   Fetching, with or without eviction, changes the contents of no page that clients keep reported
   and named, but for page 0 when it is not cached and the fetch writes the first page of the file.
   Any other page keeps its contents or falls back to what the file reads as.
   */
  lemma FetchKeepsViews(p: Pool, pid: nat, q: nat)
    requires PoolOk(p) && Fetch(p, pid).Some?
    ensures var v, v' := View(p, q), View(Fetch(p, pid).value, q);
            if q == 0 && 0 !in p.pageMap && FetchLeavesHole(p, pid) then v' != v
            else if Disciplined(p, q) || q == pid then v' == v
            else v' == v || v' == AsRead(q, v) || v' == StoreRead(p.store, q)
  {
    hide StoreOk, StoreRead, HeaderOf, Load, Touch, View, MakeRoom, Disciplined, RoomLeavesHole;
    if pid in p.pageMap {
      TouchView(p, p.pageMap[pid], q);
    } else {
      RoomView(p, q);
      var (p', i) := MakeRoom(p).value;
      LoadView(p', pid, i, q);
    }
  }

  /**
   Fetching keeps a page reported and named, and the page it loads is so; only page 0, cached without
   a mark, is no longer what the file reads as when the fetch writes the first page of the file.
   */
  lemma FetchKeepsDiscipline(p: Pool, pid: nat, q: nat)
    requires PoolOk(p) && Fetch(p, pid).Some? && q < TWO64 && Disciplined(p, q)
    ensures Disciplined(Fetch(p, pid).value, q) <==>
            !(q == 0 && 0 in p.pageMap && !p.frames[p.pageMap[0]].page.value.dirty && FetchLeavesHole(p, pid))
  {
    hide StoreOk, StoreRead, HeaderOf, Load, Touch, MakeRoom, Disciplined, RoomLeavesHole;
    if pid in p.pageMap {
      TouchDiscipline(p, p.pageMap[pid], q);
    } else {
      RoomDiscipline(p, q);
      var (p', i) := MakeRoom(p).value;
      LoadDiscipline(p', pid, i, q);
    }
  }

  lemma TouchDiscipline(p: Pool, i: nat, q: nat)
    requires PoolOk(p) && Occupied(p, i) && Disciplined(p, q)
    ensures PoolOk(Touch(p, i)) && Disciplined(Touch(p, i), q)
  {
    hide StoreOk, StoreRead, HeaderOf, Without;
    TouchView(p, i, q);
    if q in p.pageMap { assert Maps(p, q, p.pageMap[q]); }
  }

  lemma LoadDiscipline(p: Pool, pid: nat, i: nat, q: nat)
    requires PoolOk(p) && i < |p.frames| && p.frames[i].page.None? && pid !in p.pageMap && q < TWO64
    ensures PoolOk(Load(p, pid, i)) && (Disciplined(Load(p, pid, i), q) <==> Disciplined(p, q))
  {
    hide StoreOk, StoreRead, HeaderOf;
    LoadView(p, pid, i, q);
    ReadNamed(p.store, q);
    if q in p.pageMap { assert Maps(p, q, p.pageMap[q]); }
  }

  /** What is read carries its number. */
  lemma ReadNamed(s: Store, q: nat)
    requires StoreOk(s) && q < TWO64
    ensures HeaderOf(StoreRead(s, q)).pageID == q
  {
    hide HeaderOf, Blank;
    BlankIs(q);
  }

  lemma RoomDiscipline(p: Pool, q: nat)
    requires PoolOk(p) && MakeRoom(p).Some? && Disciplined(p, q)
    ensures Disciplined(MakeRoom(p).value.0, q) <==>
            !(q == 0 && 0 in p.pageMap && !p.frames[p.pageMap[0]].page.value.dirty && RoomLeavesHole(p))
  {
    hide StoreOk, StoreRead, HeaderOf, Without, Evict, Disciplined, EvictLeavesHole;
    if FirstFree(p.frames, 0).None? {
      EvictDiscipline(p, VictimOf(p).value, q);
    }
  }

  lemma EvictDiscipline(p: Pool, i: nat, q: nat)
    requires PoolOk(p) && Occupied(p, i) && Disciplined(p, q)
    ensures PoolOk(Evict(p, i))
    ensures Disciplined(Evict(p, i), q) <==>
            !(q == 0 && 0 in p.pageMap && !p.frames[p.pageMap[0]].page.value.dirty && EvictLeavesHole(p, i))
  {
    hide StoreOk, StoreWrite, StoreRead, HeaderOf, Without;
    EvictOk(p, i);
    var page := p.frames[i].page.value;
    WriteThenRead(p.store, page.id, page.data, q);
    if page.id >= 1 { HoleAtZero(p.store, page.id, page.data); }
    if q in p.pageMap { assert Maps(p, q, p.pageMap[q]); }
  }

  /** Fetching fails exactly when the page is absent and every frame holds a pinned page. */
  lemma FetchFails(p: Pool, pid: nat)
    requires PoolOk(p)
    ensures Fetch(p, pid).None? <==>
            pid !in p.pageMap && forall i :: 0 <= i < |p.frames| ==> p.frames[i].page.Some? && p.frames[i].pins > 0
  {
    hide StoreOk, Load, Touch, Evict;
    if FirstFree(p.frames, 0).None? && VictimOf(p).None? {
      assert forall i: nat :: i < |p.frames| ==> Occupied(p, i);
    }
  }

  /** The fetched page has one pin more, or its first one; only a page that was cached can be dirty. */
  lemma FetchPins(p: Pool, pid: nat)
    requires PoolOk(p) && Fetch(p, pid).Some?
    ensures var p' := Fetch(p, pid).value; var i' := p'.pageMap[pid];
            && p'.frames[i'].pins == (if pid in p.pageMap then p.frames[p.pageMap[pid]].pins + 1 else 1)
            && p'.frames[i'].page.Some?
            && (p'.frames[i'].page.value.dirty <==> pid in p.pageMap && p.frames[p.pageMap[pid]].page.value.dirty)
  {
    hide StoreOk, StoreRead, StoreWrite, Without;
    if pid in p.pageMap {
      assert Maps(p, pid, p.pageMap[pid]);
    }
  }

  /** A pinned page stays in its frame with its contents, its mark and at least its pins. */
  lemma PinnedStays(p: Pool, pid: nat, q: nat)
    requires PoolOk(p) && Fetch(p, pid).Some?
    requires q in p.pageMap && p.frames[p.pageMap[q]].pins > 0
    ensures var p' := Fetch(p, pid).value;
            && q in p'.pageMap && p'.pageMap[q] == p.pageMap[q]
            && p'.frames[p'.pageMap[q]].page == p.frames[p.pageMap[q]].page
            && p'.frames[p'.pageMap[q]].pins >= p.frames[p.pageMap[q]].pins
  {
    hide StoreOk, StoreRead, StoreWrite, Without;
    assert Maps(p, q, p.pageMap[q]);
    if pid !in p.pageMap && FirstFree(p.frames, 0).None? {
      assert VictimOf(p).value != p.pageMap[q];
    }
  }

  // ----- pins -----

  ghost function PinsOf(p: Pool, pid: nat): nat
    requires PoolOk(p)
  {
    if pid in p.pageMap then p.frames[p.pageMap[pid]].pins else 0
  }

  /** Some frame is free or holds a page without a pin: any page can be fetched. */
  ghost predicate HasRoom(p: Pool) {
    exists i :: 0 <= i < |p.frames| && p.frames[i].pins == 0
  }

  lemma RoomFetches(p: Pool, pid: nat)
    requires PoolOk(p) && HasRoom(p)
    ensures Fetch(p, pid).Some?
  {
    hide PoolOk, Fetch;
    FetchFails(p, pid);
  }

  /** The pages that can be fetched: all if some frame has no pin, and else those that are cached. */
  ghost predicate Fetchable(p: Pool, pid: nat) {
    HasRoom(p) || pid in p.pageMap
  }

  lemma FetchableFetches(p: Pool, pid: nat)
    requires PoolOk(p)
    ensures Fetch(p, pid).Some? <==> Fetchable(p, pid)
  {
    hide StoreOk, Fetch;
    FetchFails(p, pid);
    if pid !in p.pageMap && !HasRoom(p) {
      forall i | 0 <= i < |p.frames| ensures Occupied(p, i) && p.frames[i].pins > 0 {
      }
    }
  }

  /** All pins as they were, and the same pages can be fetched. */
  ghost predicate PinsKept(p: Pool, p': Pool)
    requires PoolOk(p) && PoolOk(p')
  {
    && (forall q :: PinsOf(p', q) == PinsOf(p, q))
    && (HasRoom(p) <==> HasRoom(p'))
    && (!HasRoom(p) ==> p'.pageMap == p.pageMap)
  }

  /** The same pages in the same frames with the same pins. */
  ghost predicate SamePins(p: Pool, p': Pool) {
    && p.pageMap == p'.pageMap && |p.frames| == |p'.frames|
    && forall i :: 0 <= i < |p.frames| ==> p'.frames[i].pins == p.frames[i].pins
  }

  lemma FetchPinsOf(p: Pool, pid: nat, q: nat)
    requires PoolOk(p) && Fetch(p, pid).Some?
    ensures PinsOf(Fetch(p, pid).value, q) == PinsOf(p, q) + if q == pid then 1 else 0
  {
    hide StoreOk, StoreRead, StoreWrite, Without, NoRepeats;
    if q in p.pageMap { assert Maps(p, q, p.pageMap[q]); }
  }

  /** A page fetched and given back leaves all pins as they were, and room if there was some. */
  lemma VisitKeepsPins(p: Pool, pid: nat, p1: Pool, dirty: bool)
    requires PoolOk(p) && Fetch(p, pid).Some? && PoolOk(p1) && SamePins(Fetch(p, pid).value, p1)
    ensures PoolOk(Unpin(p1, pid, dirty)) && PinsKept(p, Unpin(p1, pid, dirty))
  {
    hide PoolOk, Fetch;
    UnpinKeepsViews(p1, pid, dirty, 1);
    forall q ensures PinsOf(Unpin(p1, pid, dirty), q) == PinsOf(p, q) {
      FetchPinsOf(p, pid, q);
      UnpinPinsOf(p1, pid, dirty, q);
      SamePinsOf(Fetch(p, pid).value, p1, q);
    }
    if HasRoom(p) {
      VisitKeepsRoom(p, pid, p1, dirty);
    } else {
      VisitMakesNoRoom(p, pid, p1, dirty);
    }
  }

  /** A page fetched and not given back has a pin more. */
  ghost predicate LeftPinned(p: Pool, p': Pool, pid: nat)
    requires PoolOk(p) && PoolOk(p')
  {
    forall q :: PinsOf(p', q) == PinsOf(p, q) + if q == pid then 1 else 0
  }

  ghost predicate OnePinMore(p: Pool, p': Pool)
    requires PoolOk(p) && PoolOk(p')
  {
    exists pid :: LeftPinned(p, p', pid)
  }

  lemma VisitLeavesPin(p: Pool, pid: nat, p1: Pool)
    requires PoolOk(p) && Fetch(p, pid).Some? && PoolOk(p1) && SamePins(Fetch(p, pid).value, p1)
    ensures LeftPinned(p, p1, pid)
  {
    hide PoolOk, Fetch, SamePins;
    forall q ensures PinsOf(p1, q) == PinsOf(p, q) + if q == pid then 1 else 0 {
      FetchPinsOf(p, pid, q);
      SamePinsOf(Fetch(p, pid).value, p1, q);
    }
  }

  lemma LeftPinnedOn(p: Pool, p': Pool, p'': Pool, pid: nat)
    requires PoolOk(p) && PoolOk(p') && PoolOk(p'') && PinsKept(p, p') && LeftPinned(p', p'', pid)
    ensures LeftPinned(p, p'', pid)
  {
    hide PoolOk, PinsOf, HasRoom;
  }

  lemma VisitMakesNoRoom(p: Pool, pid: nat, p1: Pool, dirty: bool)
    requires PoolOk(p) && Fetch(p, pid).Some? && PoolOk(p1) && SamePins(Fetch(p, pid).value, p1) && !HasRoom(p)
    ensures !HasRoom(Unpin(p1, pid, dirty)) && Unpin(p1, pid, dirty).pageMap == p.pageMap
  {
    FetchableFetches(p, pid);
    assert Maps(p, pid, p.pageMap[pid]);
    assert p.frames[p.pageMap[pid]].pins > 0;
    NoRoomTouched(p, pid, p1, dirty);
  }

  lemma NoRoomTouched(p: Pool, pid: nat, p1: Pool, dirty: bool)
    requires PoolOk(p) && pid in p.pageMap && PoolOk(p1) && SamePins(Touch(p, p.pageMap[pid]), p1) && !HasRoom(p)
    requires forall i :: 0 <= i < |p.frames| ==> p.frames[i].pins > 0
    ensures !HasRoom(Unpin(p1, pid, dirty)) && Unpin(p1, pid, dirty).pageMap == p.pageMap
  {
    hide StoreOk, StoreRead, Without, NoRepeats;
    assert Maps(p, pid, p.pageMap[pid]) && Maps(p1, pid, p1.pageMap[pid]);
  }

  lemma SamePinsOf(p: Pool, p': Pool, q: nat)
    requires PoolOk(p) && PoolOk(p') && SamePins(p, p')
    ensures PinsOf(p', q) == PinsOf(p, q)
  {
    if q in p.pageMap { assert Maps(p, q, p.pageMap[q]); }
  }

  lemma UnpinPinsOf(p: Pool, pid: nat, dirty: bool, q: nat)
    requires PoolOk(p)
    ensures PoolOk(Unpin(p, pid, dirty))
    ensures PinsOf(Unpin(p, pid, dirty), q) == if q == pid && PinsOf(p, q) > 0 then PinsOf(p, q) - 1 else PinsOf(p, q)
  {
    hide StoreOk, StoreRead, NoRepeats;
    UnpinKeepsViews(p, pid, dirty, 1);
    if q in p.pageMap { assert Maps(p, q, p.pageMap[q]); }
    if pid in p.pageMap { assert Maps(p, pid, p.pageMap[pid]); }
  }

  lemma VisitKeepsRoom(p: Pool, pid: nat, p1: Pool, dirty: bool)
    requires PoolOk(p) && Fetch(p, pid).Some? && PoolOk(p1) && SamePins(Fetch(p, pid).value, p1) && HasRoom(p)
    ensures HasRoom(Unpin(p1, pid, dirty))
  {
    hide StoreOk, StoreRead, StoreWrite, Without, NoRepeats;
    var p2 := Unpin(p1, pid, dirty);
    assert Maps(p1, pid, p1.pageMap[pid]);
    if pid in p.pageMap {
      assert Maps(p, pid, p.pageMap[pid]);
      var i :| 0 <= i < |p.frames| && p.frames[i].pins == 0;
      assert p2.frames[i].pins == 0;
    } else {
      FetchPins(p, pid);
      assert p2.frames[p1.pageMap[pid]].pins == 0;
    }
  }

  // ----- recency -----

  ghost function IdAt(p: Pool, i: nat): nat {
    if Occupied(p, i) then p.frames[i].page.value.id else 0
  }

  ghost function Ids(p: Pool, s: seq<nat>): (ids: seq<nat>)
    ensures |ids| == |s|
  {
    seq(|s|, j requires 0 <= j < |s| => IdAt(p, s[j]))
  }

  /** The cached pages, most recently fetched first. */
  ghost function ByRecency(p: Pool): seq<nat> {
    Ids(p, p.lru)
  }

  lemma {:induction false} IdsWithout(p: Pool, s: seq<nat>, i: nat)
    requires PoolOk(p) && Occupied(p, i) && NoRepeats(s) && forall j :: 0 <= j < |s| ==> Occupied(p, s[j])
    ensures Ids(p, Without(s, i)) == Without(Ids(p, s), IdAt(p, i))
  {
    if s != [] {
      assert s == [s[0]] + s[1..];
      assert Ids(p, s)[1..] == Ids(p, s[1..]);
      IdsWithout(p, s[1..], i);
      if s[0] != i {
        assert Without(s, i) == [s[0]] + Without(s[1..], i);
        assert Ids(p, Without(s, i)) == [IdAt(p, s[0])] + Ids(p, Without(s[1..], i));
      }
    }
  }

  lemma SameIds(p: Pool, p': Pool, s: seq<nat>)
    requires forall j :: 0 <= j < |s| ==> IdAt(p, s[j]) == IdAt(p', s[j])
    ensures Ids(p, s) == Ids(p', s)
  {
  }

  /** The page that a fetch of pid puts out, if any: the least recently fetched one without a pin. */
  ghost function Loser(p: Pool, pid: nat): Option<nat>
    requires PoolOk(p)
  {
    if pid in p.pageMap || FirstFree(p.frames, 0).Some? || VictimOf(p).None? then None
    else Some(IdAt(p, VictimOf(p).value))
  }

  lemma IdsFront(p: Pool, i: nat, s: seq<nat>)
    ensures Ids(p, [i] + s) == [IdAt(p, i)] + Ids(p, s)
  {
  }

  lemma LruOccupied(p: Pool, s: seq<nat>)
    requires PoolOk(p) && forall x :: x in s ==> x in p.lru
    ensures forall j :: 0 <= j < |s| ==> Occupied(p, s[j])
  {
    forall j | 0 <= j < |s| ensures Occupied(p, s[j]) {
      assert s[j] in s;
    }
  }

  lemma TouchRecency(p: Pool, pid: nat)
    requires PoolOk(p) && pid in p.pageMap
    ensures ByRecency(Touch(p, p.pageMap[pid])) == [pid] + Without(ByRecency(p), pid)
  {
    hide StoreOk, NoRepeats, Without, Ids;
    assert NoRepeats(p.lru);
    var i := p.pageMap[pid];
    var p' := Touch(p, i);
    assert Maps(p, pid, i);
    LruOccupied(p, p.lru);
    IdsWithout(p, p.lru, i);
    IdsFront(p', i, Without(p.lru, i));
    SameIds(p, p', Without(p.lru, i));
  }

  lemma LoadRecency(p: Pool, pid: nat, i: nat)
    requires PoolOk(p) && i < |p.frames| && p.frames[i].page.None? && pid !in p.pageMap
    ensures ByRecency(Load(p, pid, i)) == [pid] + ByRecency(p)
  {
    hide StoreOk, StoreRead;
    var p' := Load(p, pid, i);
    LruOccupied(p, p.lru);
    IdsFront(p', i, p.lru);
    SameIds(p, p', p.lru);
  }

  lemma EvictRecency(p: Pool, i: nat)
    requires PoolOk(p) && Occupied(p, i)
    ensures ByRecency(Evict(p, i)) == Without(ByRecency(p), IdAt(p, i))
  {
    hide StoreOk, StoreWrite;
    var s := Without(p.lru, i);
    LruOccupied(p, p.lru);
    IdsWithout(p, p.lru, i);
    WithoutIs(p.lru, i);
    forall j | 0 <= j < |s| ensures IdAt(p, s[j]) == IdAt(Evict(p, i), s[j]) {
      assert s[j] in s;
    }
    SameIds(p, Evict(p, i), s);
  }

  /** A fetch moves its page to the front and drops the loser; all others keep their order. */
  lemma FetchIsMostRecent(p: Pool, pid: nat)
    requires PoolOk(p) && Fetch(p, pid).Some?
    ensures var rest := if Loser(p, pid).Some? then Without(ByRecency(p), Loser(p, pid).value) else ByRecency(p);
            ByRecency(Fetch(p, pid).value) == [pid] + if pid in p.pageMap then Without(rest, pid) else rest
  {
    hide StoreOk, Touch, Load, Evict, ByRecency, Without;
    if pid in p.pageMap {
      TouchRecency(p, pid);
    } else if FirstFree(p.frames, 0).Some? {
      LoadRecency(p, pid, FirstFree(p.frames, 0).value);
    } else {
      var i := VictimOf(p).value;
      EvictOk(p, i);
      EvictRecency(p, i);
      LoadRecency(Evict(p, i), pid, i);
    }
  }

  /** The loser is unpinned, and every page fetched less recently is pinned. */
  lemma LoserIsLeastRecent(p: Pool, pid: nat)
    requires PoolOk(p) && Loser(p, pid).Some?
    ensures exists k :: 0 <= k < |p.lru| && ByRecency(p)[k] == Loser(p, pid).value && p.frames[p.lru[k]].pins == 0
                        && forall j :: k < j < |p.lru| ==> p.frames[p.lru[j]].pins > 0
  {
    assert forall j :: 0 <= j < |p.lru| ==> p.lru[j] in p.lru && Occupied(p, p.lru[j]);
    var k := Victim(p.lru, p.frames, |p.lru|).value;
    assert ByRecency(p)[k] == IdAt(p, p.lru[k]);
  }

  // ----- the rest of the operations on the views -----

  /** Unpinning changes the contents of no page; reporting a page dirty makes it disciplined if it is named. */
  /** A page given back has one pin less, if it had any, and is dirty if it was or is said to be; all else stays. */
  lemma UnpinIs(p: Pool, pid: nat, dirty: bool, i: nat)
    requires PoolOk(p) && i < |p.frames|
    ensures var p' := Unpin(p, pid, dirty); var f, f' := p.frames[i], p'.frames[i];
            && p'.store == p.store && p'.pageMap == p.pageMap && p'.lru == p.lru && |p'.frames| == |p.frames|
            && if pid in p.pageMap && p.pageMap[pid] == i
               then && (f.pins > 0 ==> f'.pins + 1 == f.pins) && (f.pins == 0 ==> f'.pins == 0)
                    && f.page.Some? && f'.page.Some?
                    && f'.page.value.id == f.page.value.id && f'.page.value.data == f.page.value.data
                    && (f'.page.value.dirty <==> f.page.value.dirty || dirty)
               else f' == f
  {
    hide StoreOk, StoreRead, NoRepeats;
    if pid in p.pageMap {
      assert Maps(p, pid, p.pageMap[pid]);
    }
  }

  lemma UnpinKeepsViews(p: Pool, pid: nat, dirty: bool, q: nat)
    requires PoolOk(p)
    ensures PoolOk(Unpin(p, pid, dirty)) && View(Unpin(p, pid, dirty), q) == View(p, q)
    ensures Disciplined(p, q) ==> Disciplined(Unpin(p, pid, dirty), q)
    ensures Unpin(p, pid, dirty).store == p.store && Unpin(p, pid, dirty).pageMap == p.pageMap
  {
    hide StoreOk, StoreRead, HeaderOf;
    var p' := Unpin(p, pid, dirty);
    forall j: nat ensures Occupied(p', j) <==> Occupied(p, j) {
    }
    forall j: nat | Occupied(p', j)
      ensures p'.frames[j].page.value.id in p'.pageMap && p'.pageMap[p'.frames[j].page.value.id] == j
      ensures |p'.frames[j].page.value.data| == PAGE_SIZE
    {
      assert Occupied(p, j);
    }
    forall r | r in p'.pageMap ensures Maps(p', r, p'.pageMap[r]) {
      assert Maps(p, r, p.pageMap[r]);
    }
    if pid in p.pageMap { assert Maps(p, pid, p.pageMap[pid]); }
    if q in p.pageMap { assert Maps(p, q, p.pageMap[q]); }
  }

  /** A client changed the bytes of a cached page in place, and possibly marked it. */
  function Changed(p: Pool, pid: nat, data: PageData, dirty: bool): Pool
    requires PoolOk(p) && pid in p.pageMap
  {
    var i := p.pageMap[pid];
    p.(frames := p.frames[i := p.frames[i].(page := Some(CachedPage(pid, data, dirty)))])
  }

  lemma ChangedView(p: Pool, pid: nat, data: PageData, dirty: bool, q: nat)
    requires PoolOk(p) && pid in p.pageMap && |data| == PAGE_SIZE
    ensures PoolOk(Changed(p, pid, data, dirty))
    ensures View(Changed(p, pid, data, dirty), q) == if q == pid then data else View(p, q)
    ensures q != pid && Disciplined(p, q) ==> Disciplined(Changed(p, pid, data, dirty), q)
    ensures q == pid && dirty && HeaderOf(data).pageID == pid ==> Disciplined(Changed(p, pid, data, dirty), q)
  {
    hide StoreOk, StoreRead, HeaderOf;
    var p' := Changed(p, pid, data, dirty);
    assert Maps(p, pid, p.pageMap[pid]);
    forall j: nat ensures Occupied(p', j) <==> Occupied(p, j) {
    }
    forall j: nat | Occupied(p', j)
      ensures p'.frames[j].page.value.id in p'.pageMap && p'.pageMap[p'.frames[j].page.value.id] == j
      ensures |p'.frames[j].page.value.data| == PAGE_SIZE
    {
      assert Occupied(p, j);
    }
    forall r | r in p'.pageMap ensures Maps(p', r, p'.pageMap[r]) {
      assert Maps(p, r, p.pageMap[r]);
    }
    if q in p.pageMap { assert Maps(p, q, p.pageMap[q]); }
  }

  // ----- flushing -----

  lemma FlushStepOk(p: Pool, i: nat, s: Store)
    requires PoolOk(p) && i < |p.frames|
    requires s == p.store || (p.frames[i].page.Some? &&
             var page := p.frames[i].page.value; s == StoreWrite(p.store, page.id, page.data))
    ensures PoolOk(p.(frames := p.frames[i := Cleaned(p.frames[i])], store := s))
  {
    hide StoreOk, StoreWrite, NoRepeats;
    if s != p.store {
      assert Occupied(p, i);
      WriteKeepsStore(p.store, p.frames[i].page.value.id, p.frames[i].page.value.data);
    }
    CleanedOk(p, i, s);
  }

  /** The dirty frames among the first n written. */
  lemma {:induction false} FlushToOk(p: Pool, n: nat)
    requires PoolOk(p) && n <= |p.frames|
    ensures PoolOk(FlushTo(p, n)) && FlushTo(p, n).pageMap == p.pageMap && FlushTo(p, n).lru == p.lru
    ensures forall i :: 0 <= i < |p.frames| ==>
            FlushTo(p, n).frames[i] == (if i < n then Cleaned(p.frames[i]) else p.frames[i])
  {
    hide StoreOk, StoreWrite, PoolOk;
    if n > 0 {
      FlushToOk(p, n - 1);
      FlushStepOk(FlushTo(p, n - 1), n - 1, FlushTo(p, n).store);
    }
  }

  function Cleaned(f: FrameVal): FrameVal {
    if f.page.None? then f else f.(page := Some(f.page.value.(dirty := false)))
  }

  lemma CleanedOk(p: Pool, i: nat, s: Store)
    requires PoolOk(p) && i < |p.frames| && StoreOk(s)
    ensures PoolOk(p.(frames := p.frames[i := Cleaned(p.frames[i])], store := s))
  {
    hide StoreOk;
    var p' := p.(frames := p.frames[i := Cleaned(p.frames[i])], store := s);
    forall j: nat ensures Occupied(p', j) <==> Occupied(p, j) {
    }
    forall j: nat | Occupied(p', j)
      ensures p'.frames[j].page.value.id in p'.pageMap && p'.pageMap[p'.frames[j].page.value.id] == j
      ensures |p'.frames[j].page.value.data| == PAGE_SIZE
    {
      assert Occupied(p, j);
    }
    forall r | r in p'.pageMap ensures Maps(p', r, p'.pageMap[r]) {
      assert Maps(p, r, p.pageMap[r]);
    }
  }

  ghost predicate DirtyFrame(p: Pool, i: nat) {
    Occupied(p, i) && p.frames[i].page.value.dirty
  }

  /** Page q is in one of the first n frames, marked. */
  ghost predicate DirtyIn(p: Pool, n: nat, q: nat) {
    q in p.pageMap && p.pageMap[q] < n && DirtyFrame(p, p.pageMap[q])
  }

  ghost predicate SomeDirty(p: Pool, n: nat) {
    exists i: nat :: i < n && DirtyFrame(p, i)
  }

  /** What the file reads page q as, once the dirty pages among the first n frames are written. */
  ghost function Flushed(p: Pool, n: nat, q: nat): PageData
    requires PoolOk(p)
  {
    if DirtyIn(p, n, q) then AsRead(q, View(p, q))
    else if q == 0 && p.store.file == [] && SomeDirty(p, n) then Zeros(PAGE_SIZE)
    else StoreRead(p.store, q)
  }

  lemma {:induction false} FlushToReads(p: Pool, n: nat, q: nat)
    requires PoolOk(p) && n <= |p.frames|
    ensures var s := FlushTo(p, n).store;
            StoreOk(s) && StoreRead(s, q) == Flushed(p, n, q) &&
              (s.file == [] <==> p.store.file == [] && !SomeDirty(p, n))
  {
    hide StoreRead, StoreWrite, HeaderOf, StoreOk, PoolOk, View, AsRead, DirtyFrame;
    StoreIsOk(p);
    if n > 0 {
      FlushToOk(p, n - 1);
      FlushToReads(p, n - 1, q);
      var p1 := FlushTo(p, n - 1);
      assert p1.frames[n - 1] == p.frames[n - 1];
      FrameWritten(p, n - 1, p1.store, q);
      assert SomeDirty(p, n) <==> SomeDirty(p, n - 1) || DirtyFrame(p, n - 1);
      assert DirtyIn(p, n, q) <==>
             DirtyIn(p, n - 1, q) || (DirtyFrame(p, n - 1) && q in p.pageMap && p.pageMap[q] == n - 1);
      assert DirtyIn(p, n - 1, q) ==> SomeDirty(p, n - 1);
    }
  }

  lemma StoreIsOk(p: Pool)
    requires PoolOk(p)
    ensures StoreOk(p.store) && forall q :: q in p.pageMap ==> Maps(p, q, p.pageMap[q])
  {
  }

  /** A store after the page of frame i was written to it, if that was dirty. */
  lemma FrameWritten(p: Pool, i: nat, s: Store, q: nat)
    requires PoolOk(p) && i < |p.frames| && StoreOk(s)
    ensures var s' := match p.frames[i].page
                      case None => s
                      case Some(page) => if page.dirty then StoreWrite(s, page.id, page.data) else s;
            && StoreOk(s') && (s'.file == [] <==> s.file == [] && !DirtyFrame(p, i))
            && StoreRead(s', q) ==
               if !DirtyFrame(p, i) then StoreRead(s, q)
               else if q in p.pageMap && p.pageMap[q] == i then AsRead(q, View(p, q))
               else if q == 0 && s.file == [] then Zeros(PAGE_SIZE)
               else StoreRead(s, q)
  {
    hide StoreRead, StoreWrite, HeaderOf, StoreOk, NoRepeats, AsRead;
    if Occupied(p, i) {
      var page := p.frames[i].page.value;
      WriteThenRead(s, page.id, page.data, q);
    }
    if q in p.pageMap { assert Maps(p, q, p.pageMap[q]); }
  }

  /** FlushAll writes the first pages of an empty file, and page 0 is not among them. */
  ghost predicate FlushLeavesHole(p: Pool) {
    p.store.file == [] && SomeDirty(p, |p.frames|) && !DirtyIn(p, |p.frames|, 0)
  }

  /**
   After FlushAll no page is dirty, no page changed, and the file reads each disciplined page as what
   it holds; page 0 is the exception when the flush leaves a hole there.
   */
  lemma FlushAllWrites(p: Pool, q: nat)
    requires PoolOk(p)
    ensures PoolOk(FlushAll(p))
    ensures Disciplined(p, q) ==> (StoreRead(FlushAll(p).store, q) == View(p, q) <==> !(q == 0 && FlushLeavesHole(p)))
    ensures Disciplined(p, q) ==>
            (View(FlushAll(p), q) == View(p, q) <==> !(q == 0 && 0 !in p.pageMap && FlushLeavesHole(p)))
    ensures q in p.pageMap ==> View(FlushAll(p), q) == View(p, q)
    ensures forall i :: 0 <= i < |p.frames| && FlushAll(p).frames[i].page.Some? ==>
            !FlushAll(p).frames[i].page.value.dirty
  {
    hide StoreRead, StoreWrite, HeaderOf, FlushTo;
    FlushToOk(p, |p.frames|);
    FlushToReads(p, |p.frames|, q);
    if p.store.file == [] { EmptyReads(p.store); }
    if q in p.pageMap { assert Maps(p, q, p.pageMap[q]); }
  }

  lemma EmptyReads(s: Store)
    requires StoreOk(s) && s.file == []
    ensures StoreRead(s, 0) != Zeros(PAGE_SIZE)
  {
    hide Blank, HeaderOf;
    ZerosAreNotBlank();
  }

  /**
   Reopening after a flush, with any number of frames, finds every disciplined page as it was, but for page 0 in a
   hole.
   */
  lemma ReopenedAfterFlush(p: Pool, capacity: nat, q: nat)
    requires PoolOk(p) && Disciplined(p, q)
    ensures PoolOk(Reopened(FlushAll(p).store, capacity))
    ensures View(Reopened(FlushAll(p).store, capacity), q) == View(p, q) <==> !(q == 0 && FlushLeavesHole(p))
  {
    hide FlushAll, FlushLeavesHole, Disciplined, HeaderOf;
    FlushAllWrites(p, q);
  }
}
