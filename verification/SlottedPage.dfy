// One page in memory, changed in place.
module SlottedPage {
  import opened Sequences
  import opened Bytes
  import opened PageModel
  import opened Results

  /** Overwrite the bytes at off. */
  method PutBytes(a: array<Byte>, off: nat, bytes: seq<Byte>)
    requires off + |bytes| <= a.Length
    modifies a
    ensures a[..] == Patch(old(a[..]), off, bytes)
  {
    for i := 0 to |bytes|
      invariant a[..] == old(a[..])[..off] + bytes[..i] + old(a[..])[off + i..]
    {
      a[off + i] := bytes[i];
    }
    assert bytes[..|bytes|] == bytes;
  }

  class Page {
    const ID: nat
    const Data: array<Byte>
    var Dirty: bool

    /** A blank page. */
    constructor (pageID: nat)
      ensures fresh(Data) && Data.Length == PAGE_SIZE && ID == pageID && !Dirty
      ensures Data[..] == Blank(pageID)
    {
      ID, Data, Dirty := pageID, new Byte[PAGE_SIZE](_ => 0), false;
      new;
      assert Data[..] == Zeros(PAGE_SIZE);
      WriteHeader(BlankHeader(pageID));
    }

    /** A page read from the file. */
    constructor Read(pageID: nat, data: PageData)
      requires |data| == PAGE_SIZE
      ensures fresh(Data) && Data.Length == PAGE_SIZE && ID == pageID && !Dirty
      ensures Data[..] == data
    {
      ID, Data, Dirty := pageID, new Byte[PAGE_SIZE](i requires 0 <= i < |data| => data[i]), false;
    }

    function ReadHeader(): PageHeader
      requires Data.Length == PAGE_SIZE
      reads Data
    {
      HeaderOf(Data[..])
    }

    method WriteHeader(h: PageHeader)
      requires Data.Length == PAGE_SIZE
      modifies Data
      ensures Data[..] == WithHeader(old(Data[..]), h)
    {
      PutBytes(Data, 0, HeaderBytes(h));
    }

    /** The slot number is a uint16, and so is its byte offset: well below wrapping for slots that exist. */
    function GetSlot(slotID: nat): (s: Slot)
      requires Data.Length == PAGE_SIZE && SlotPos(slotID) + SLOT_SIZE <= PAGE_SIZE
      reads Data
      ensures s == SlotOf(Data[..], slotID)
    {
      var offset := (HEADER_SIZE + slotID * SLOT_SIZE) % TWO16;
      Slot(FromLittleEndian(Data[offset..offset + 2]), FromLittleEndian(Data[offset + 2..offset + 4]))
    }

    method SetSlot(slotID: nat, s: Slot)
      requires Data.Length == PAGE_SIZE && SlotPos(slotID) + SLOT_SIZE <= PAGE_SIZE
      modifies Data
      ensures Data[..] == WithSlot(old(Data[..]), slotID, s)
    {
      hide SlotBytes, Patch;
      var offset := (HEADER_SIZE + slotID * SLOT_SIZE) % TWO16;
      PutBytes(Data, offset, SlotBytes(s));
    }

    /** Whether a row of rowSize bytes and its slot fit; right exactly unless their 16-bit sum wraps around and fits. */
    function CanFit(rowSize: nat): (fits: bool)
      requires Data.Length == PAGE_SIZE && rowSize < TWO16
      reads Data
      ensures (fits <==> rowSize + SLOT_SIZE <= FreeSpace(Data[..])) <==> !WrapsAround(Data[..], rowSize)
    {
      var needed := (rowSize + SLOT_SIZE) % TWO16;
      SpaceIsSmall(Data[..]);
      FreeSpace(Data[..]) >= needed
    }

    /**
     Add a row; its slot number is the number of rows so far. A row whose size check wraps around is then sliced out of
     range, before anything is written.
     */
    method InsertRow(row: seq<Byte>) returns (r: Result<nat>)
      requires Data.Length == PAGE_SIZE && WellFormed(Data[..])
      modifies this, Data
      ensures r.Ok? <==> CanAdd(old(Data[..]), row)
      ensures r.Ok? ==> r.value == HeaderOf(old(Data[..])).rowCount && Dirty && Data[..] == WithRow(old(Data[..]), row)
      ensures r == Err(Panicked) <==> WrapsAround(old(Data[..]), |row|)
      ensures r.Err? ==> r.error == Reason(FreeSpace(old(Data[..])), row)
      ensures r.Err? ==> Data[..] == old(Data[..]) && Dirty == old(Dirty)
    {
      hide HeaderOf, WellFormed, WithHeader, WithSlot, Patch, HeaderBytes, SlotBytes, FreeSpace;
      HeaderInRange(Data[..]);
      if |row| > 65535 {
        return Err(RowTooLong);
      }
      var rowSize := |row|;
      if !CanFit(rowSize) {
        return Err(NoSpaceOnPage);
      }
      var h := ReadHeader();
      var slotID := h.rowCount;
      var newEnd := (h.freeEnd - rowSize) % TWO16;
      InsertSlices(Data[..], rowSize);
      if newEnd > (newEnd + rowSize) % TWO16 {
        return Err(Panicked);
      }
      NothingWraps(Data[..], rowSize);
      PutBytes(Data, newEnd, row);
      SetSlot(slotID, Slot(newEnd, rowSize));
      WriteHeader(h.(rowCount := h.rowCount + 1, freeEnd := newEnd,
                     freeOff := (HEADER_SIZE + (h.rowCount + 1) * SLOT_SIZE) % TWO16));
      Dirty := true;
      return Ok(slotID);
    }

    function GetRow(slotID: nat): (r: Result<seq<Byte>>)
      requires Data.Length == PAGE_SIZE && (WellFormed(Data[..]) || NoRows(Data[..]))
      reads Data
      ensures WellFormed(Data[..]) ==> r == ReadRow(RowsOf(Data[..]), slotID)
      ensures NoRows(Data[..]) ==> r == Err(NoSuchSlot)
    {
      var h := ReadHeader();
      if slotID >= h.rowCount then Err(NoSuchSlot)
      else
        HeaderInRange(Data[..]);
        var slot := GetSlot(slotID);
        if slot.length == 0 then Err(RowDeleted)
        else
          assert SlotInData(h, SlotOf(Data[..], slotID));
          Ok(Data[slot.offset..slot.offset + slot.length])
    }

    /** Mark a row as deleted: its slot becomes empty. */
    method DeleteRow(slotID: nat) returns (r: Result<()>)
      requires Data.Length == PAGE_SIZE && (WellFormed(Data[..]) || NoRows(Data[..]))
      modifies this, Data
      ensures r.Ok? <==> slotID < HeaderOf(old(Data[..])).rowCount
      ensures r.Ok? ==> Data[..] == WithoutRow(old(Data[..]), slotID) && Dirty
      ensures r.Err? ==> r.error == NoSuchSlot && Data[..] == old(Data[..]) && Dirty == old(Dirty)
    {
      hide HeaderOf, WellFormed;
      var h := ReadHeader();
      if slotID >= h.rowCount {
        return Err(NoSuchSlot);
      }
      HeaderInRange(Data[..]);
      SetSlot(slotID, Slot(0, 0));
      Dirty := true;
      return Ok(());
    }
  }

  /** A row size whose 16-bit sum with the slot size wraps around, and then fits. */
  predicate WrapsAround(d: PageData, n: nat)
    requires |d| == PAGE_SIZE
  {
    SizeWraps(n) && (n + SLOT_SIZE) % TWO16 <= FreeSpace(d)
  }

  predicate SizeWraps(n: nat) {
    n < TWO16 <= n + SLOT_SIZE
  }

  predicate NoRows(d: PageData)
    requires |d| == PAGE_SIZE
  {
    HeaderOf(d).rowCount == 0
  }

  lemma SpaceIsSmall(d: PageData)
    requires |d| == PAGE_SIZE
    ensures FreeSpace(d) < TWO16
  {
    Powers();
    ReadBound(d[14..16]);
  }

  /** The slice for the row's bytes is out of range exactly for the sizes that wrap around. */
  lemma InsertSlices(d: PageData, n: nat)
    requires |d| == PAGE_SIZE && WellFormed(d) && n < TWO16 && (n + SLOT_SIZE) % TWO16 <= FreeSpace(d)
    ensures var newEnd := (HeaderOf(d).freeEnd - n) % TWO16; newEnd > (newEnd + n) % TWO16 <==> WrapsAround(d, n)
  {
    hide WellFormed, HeaderOf;
    HeaderInRange(d);
    var e := HeaderOf(d).freeEnd;
    if SizeWraps(n) {
      assert (e - n) % TWO16 == e - n + TWO16;
      assert (e - n + TWO16 + n) % TWO16 == e;
    } else {
      assert n + SLOT_SIZE <= FreeSpace(d);
    }
  }

  /** A row of 65532 to 65535 bytes passes the size check of a new page; on a full page it need not. */
  lemma LongRowWraps(pageID: nat, n: nat)
    requires pageID < TWO64
    ensures WrapsAround(Blank(pageID), n) <==> 65532 <= n <= 65535
  {
    hide Blank, HeaderOf;
    BlankIs(pageID);
  }

  /** Why a row is not taken by a page with this many free bytes. */
  function Reason(room: int, row: seq<Byte>): Error {
    if SizeWraps(|row|) && (|row| + SLOT_SIZE) % TWO16 <= room then Panicked
    else if |row| > 65535 then RowTooLong
    else NoSpaceOnPage
  }

  /** How putting the new version of a row on its page fails: the heap then waits for its own lock. */
  function Failure(room: int, row: seq<Byte>): Error {
    if Reason(room, row) == Panicked then Panicked else Deadlock
  }

  function ReadRow(rows: Rows, slotID: nat): Result<seq<Byte>> {
    if slotID >= |rows| then Err(NoSuchSlot)
    else if rows[slotID].None? then Err(RowDeleted)
    else Ok(rows[slotID].value)
  }

  /** The uint16 arithmetic of an insert that fits stays in range. */
  lemma NothingWraps(d: PageData, n: nat)
    requires WellFormed(d) && n + SLOT_SIZE <= FreeSpace(d)
    ensures var h := HeaderOf(d);
            && n <= h.freeEnd && (h.freeEnd - n) % TWO16 == h.freeEnd - n
            && SlotPos(h.rowCount) + SLOT_SIZE <= h.freeEnd - n
            && (HEADER_SIZE + (h.rowCount + 1) * SLOT_SIZE) % TWO16 == SlotPos(h.rowCount + 1)
  {
    HeaderInRange(d);
  }

  lemma HeaderInRange(d: PageData)
    requires WellFormed(d)
    ensures var h := HeaderOf(d);
            && h.freeOff == SlotPos(h.rowCount) && h.freeOff <= h.freeEnd <= PAGE_SIZE
            && FreeSpace(d) == h.freeEnd - h.freeOff
  {
  }
}
