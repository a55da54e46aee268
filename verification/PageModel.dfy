// A slotted page as bytes: header, slot directory growing up, row data growing down.
module PageModel {
  import opened Sequences
  import opened Bytes
  import opened ByteOrder

  const PAGE_SIZE: nat := 4096
  const HEADER_SIZE: nat := 24
  const SLOT_SIZE: nat := 4

  datatype PageHeader = PageHeader(pageID: nat, tableID: nat, freeOff: nat, freeEnd: nat, rowCount: nat, flags: nat,
    checksum: nat)
  datatype Slot = Slot(offset: nat, length: nat)

  type PageData = seq<Byte>

  predicate HeaderFits(h: PageHeader) {
    h.pageID < TWO64 && h.tableID < TWO32 && h.freeOff < TWO16 && h.freeEnd < TWO16 &&
    h.rowCount < TWO16 && h.flags < TWO16 && h.checksum < TWO32
  }

  function HeaderBytes(h: PageHeader): (s: seq<Byte>)
    ensures |s| == HEADER_SIZE
  {
    LittleEndian(h.pageID, 8) + LittleEndian(h.tableID, 4) + LittleEndian(h.freeOff, 2) + LittleEndian(h.freeEnd, 2) +
    LittleEndian(h.rowCount, 2) + LittleEndian(h.flags, 2) + LittleEndian(h.checksum, 4)
  }

  function HeaderOf(d: PageData): PageHeader
    requires |d| == PAGE_SIZE
  {
    PageHeader(FromLittleEndian(d[0..8]), FromLittleEndian(d[8..12]), FromLittleEndian(d[12..14]),
               FromLittleEndian(d[14..16]), FromLittleEndian(d[16..18]), FromLittleEndian(d[18..20]),
               FromLittleEndian(d[20..24]))
  }

  function WithHeader(d: PageData, h: PageHeader): (r: PageData)
    requires |d| == PAGE_SIZE
    ensures |r| == PAGE_SIZE
  {
    Patch(d, 0, HeaderBytes(h))
  }

  function SlotPos(i: nat): nat { HEADER_SIZE + SLOT_SIZE * i }

  function SlotBytes(s: Slot): (b: seq<Byte>)
    ensures |b| == SLOT_SIZE
  {
    LittleEndian(s.offset, 2) + LittleEndian(s.length, 2)
  }

  function SlotOf(d: PageData, i: nat): Slot
    requires |d| == PAGE_SIZE && SlotPos(i) + SLOT_SIZE <= PAGE_SIZE
  {
    Slot(FromLittleEndian(d[SlotPos(i)..SlotPos(i) + 2]), FromLittleEndian(d[SlotPos(i) + 2..SlotPos(i) + 4]))
  }

  function WithSlot(d: PageData, i: nat, s: Slot): (r: PageData)
    requires |d| == PAGE_SIZE && SlotPos(i) + SLOT_SIZE <= PAGE_SIZE
    ensures |r| == PAGE_SIZE
  {
    Patch(d, SlotPos(i), SlotBytes(s))
  }

  // ----- reading what was written -----

  lemma HeaderReadsBack(d: PageData, h: PageHeader)
    requires |d| == PAGE_SIZE && HeaderFits(h)
    ensures HeaderOf(WithHeader(d, h)) == h
  {
    var r, b := WithHeader(d, h), HeaderBytes(h);
    assert r[0..24] == b;
    HeaderPart(r, b, 0, 8);
    HeaderPart(r, b, 8, 12);
    HeaderPart(r, b, 12, 14);
    HeaderPart(r, b, 14, 16);
    HeaderPart(r, b, 16, 18);
    HeaderPart(r, b, 18, 20);
    HeaderPart(r, b, 20, 24);
    HeaderParts(h);
    ReadsBack64(h.pageID);
    ReadsBack32(h.tableID);
    ReadsBack16(h.freeOff);
    ReadsBack16(h.freeEnd);
    ReadsBack16(h.rowCount);
    ReadsBack16(h.flags);
    ReadsBack32(h.checksum);
  }

  lemma HeaderPart(r: PageData, b: seq<Byte>, lo: nat, hi: nat)
    requires |r| == PAGE_SIZE && |b| == HEADER_SIZE && r[0..24] == b && lo <= hi <= HEADER_SIZE
    ensures r[lo..hi] == b[lo..hi]
  {
    assert r[lo..hi] == r[0..24][lo..hi];
  }

  lemma HeaderParts(h: PageHeader)
    ensures var b := HeaderBytes(h);
            && b[0..8] == LittleEndian(h.pageID, 8)
            && b[8..12] == LittleEndian(h.tableID, 4)
            && b[12..14] == LittleEndian(h.freeOff, 2)
            && b[14..16] == LittleEndian(h.freeEnd, 2)
            && b[16..18] == LittleEndian(h.rowCount, 2)
            && b[18..20] == LittleEndian(h.flags, 2)
            && b[20..24] == LittleEndian(h.checksum, 4)
  {
  }

  lemma SlotReadsBack(d: PageData, i: nat, s: Slot)
    requires |d| == PAGE_SIZE && SlotPos(i) + SLOT_SIZE <= PAGE_SIZE && s.offset < TWO16 && s.length < TWO16
    ensures SlotOf(WithSlot(d, i, s), i) == s
  {
    var r, p := WithSlot(d, i, s), SlotPos(i);
    assert r[p..p + 2] == r[p..p + 4][0..2] == LittleEndian(s.offset, 2);
    assert r[p + 2..p + 4] == r[p..p + 4][2..4] == LittleEndian(s.length, 2);
    ReadsBack16(s.offset);
    ReadsBack16(s.length);
  }

  // ----- the page as rows -----

  type Rows = seq<Option<seq<Byte>>>

  predicate SlotInData(h: PageHeader, s: Slot) {
    s.length == 0 || (h.freeEnd <= s.offset && s.offset + s.length <= PAGE_SIZE)
  }

  predicate Apart(s: Slot, s': Slot) {
    s.length == 0 || s'.length == 0 || s.offset + s.length <= s'.offset || s'.offset + s'.length <= s.offset
  }

  /** The directory ends where its last slot does, below the data; live slots lie in the data, apart from each other. */
  ghost predicate WellFormed(d: PageData) {
    && |d| == PAGE_SIZE
    && var h := HeaderOf(d);
       && HeaderFits(h)
       && h.freeOff == SlotPos(h.rowCount)
       && h.freeOff <= h.freeEnd <= PAGE_SIZE
       && (forall i :: 0 <= i < h.rowCount ==> SlotInData(h, SlotOf(d, i)))
       && (forall i, j :: 0 <= i < j < h.rowCount ==> Apart(SlotOf(d, i), SlotOf(d, j)))
  }

  /** Row i: its bytes, or nothing if it was deleted (or never had any). */
  ghost function RowOf(d: PageData, i: nat): Option<seq<Byte>>
    requires WellFormed(d) && i < HeaderOf(d).rowCount
  {
    var s := SlotOf(d, i);
    if s.length == 0 then None else Some(d[s.offset..s.offset + s.length])
  }

  ghost function RowsOf(d: PageData): (rows: Rows)
    requires WellFormed(d)
    ensures |rows| == HeaderOf(d).rowCount
  {
    seq(HeaderOf(d).rowCount, i requires 0 <= i < HeaderOf(d).rowCount => RowOf(d, i))
  }

  function FreeSpace(d: PageData): nat
    requires |d| == PAGE_SIZE
  {
    var h := HeaderOf(d);
    if h.freeEnd < h.freeOff then 0 else h.freeEnd - h.freeOff
  }

  function BlankHeader(pageID: nat): PageHeader {
    PageHeader(pageID, 0, HEADER_SIZE, PAGE_SIZE, 0, 0, 0)
  }

  /** A new page. */
  function Blank(pageID: nat): (d: PageData)
    ensures |d| == PAGE_SIZE
  {
    WithHeader(Zeros(PAGE_SIZE), BlankHeader(pageID))
  }

  lemma BlankIs(pageID: nat)
    requires pageID < TWO64
    ensures WellFormed(Blank(pageID)) && HeaderOf(Blank(pageID)) == BlankHeader(pageID) && RowsOf(Blank(pageID)) == []
  {
    HeaderReadsBack(Zeros(PAGE_SIZE), BlankHeader(pageID));
  }

  /** Change the owner of a page. */
  function Tagged(d: PageData, tableID: nat): (r: PageData)
    requires |d| == PAGE_SIZE
    ensures |r| == PAGE_SIZE
  {
    WithHeader(d, HeaderOf(d).(tableID := tableID))
  }

  ghost predicate CanAdd(d: PageData, row: seq<Byte>) {
    WellFormed(d) && |row| + SLOT_SIZE <= FreeSpace(d)
  }

  /** A row added at the low end of the data, with its slot behind the last one. */
  function WithRow(d: PageData, row: seq<Byte>): (r: PageData)
    requires CanAdd(d, row)
    ensures |r| == PAGE_SIZE
  {
    var h := HeaderOf(d);
    var end := h.freeEnd - |row|;
    WithHeader(WithSlot(Patch(d, end, row), h.rowCount, Slot(end, |row|)),
               h.(rowCount := h.rowCount + 1, freeEnd := end, freeOff := SlotPos(h.rowCount + 1)))
  }

  /** A row's slot cleared. */
  function WithoutRow(d: PageData, i: nat): (r: PageData)
    requires |d| == PAGE_SIZE && SlotPos(i) + SLOT_SIZE <= PAGE_SIZE
    ensures |r| == PAGE_SIZE
  {
    WithSlot(d, i, Slot(0, 0))
  }

  // ----- what the changes leave alone -----

  lemma SlotKept(d: PageData, r: PageData, i: nat)
    requires |d| == |r| == PAGE_SIZE && SlotPos(i) + SLOT_SIZE <= PAGE_SIZE
    requires d[SlotPos(i)..SlotPos(i) + 4] == r[SlotPos(i)..SlotPos(i) + 4]
    ensures SlotOf(r, i) == SlotOf(d, i)
  {
    var p := SlotPos(i);
    assert d[p..p + 2] == d[p..p + 4][0..2] && r[p..p + 2] == r[p..p + 4][0..2];
    assert d[p + 2..p + 4] == d[p..p + 4][2..4] && r[p + 2..p + 4] == r[p..p + 4][2..4];
  }

  lemma HeaderKept(d: PageData, r: PageData)
    requires |d| == |r| == PAGE_SIZE && d[0..24] == r[0..24]
    ensures HeaderOf(r) == HeaderOf(d)
  {
    HeaderPart(r, d[0..24], 0, 8); HeaderPart(d, d[0..24], 0, 8);
    HeaderPart(r, d[0..24], 8, 12); HeaderPart(d, d[0..24], 8, 12);
    HeaderPart(r, d[0..24], 12, 14); HeaderPart(d, d[0..24], 12, 14);
    HeaderPart(r, d[0..24], 14, 16); HeaderPart(d, d[0..24], 14, 16);
    HeaderPart(r, d[0..24], 16, 18); HeaderPart(d, d[0..24], 16, 18);
    HeaderPart(r, d[0..24], 18, 20); HeaderPart(d, d[0..24], 18, 20);
    HeaderPart(r, d[0..24], 20, 24); HeaderPart(d, d[0..24], 20, 24);
  }

  lemma SameTail<T>(d: seq<T>, r: seq<T>, k: nat, lo: nat, hi: nat)
    requires |d| == |r| && k <= lo <= hi <= |d| && d[k..] == r[k..]
    ensures d[lo..hi] == r[lo..hi]
  {
    assert forall i :: lo <= i < hi ==> d[i] == d[k..][i - k] && r[i] == r[k..][i - k];
  }

  /** Two pages with the same header (but for the owner), slots and data area have the same rows. */
  lemma SameRows(d: PageData, r: PageData)
    requires WellFormed(d) && |r| == PAGE_SIZE
    requires HeaderFits(HeaderOf(r)) && HeaderOf(r).(tableID := HeaderOf(d).tableID) == HeaderOf(d)
    requires d[24..] == r[24..]
    ensures WellFormed(r) && RowsOf(r) == RowsOf(d)
  {
    hide HeaderOf, SlotOf, FromLittleEndian, LittleEndian;
    var h := HeaderOf(d);
    forall i | 0 <= i < h.rowCount ensures SlotOf(r, i) == SlotOf(d, i) {
      SameTail(d, r, 24, SlotPos(i), SlotPos(i) + 4);
      SlotKept(d, r, i);
    }
    forall i | 0 <= i < h.rowCount ensures RowOf(r, i) == RowOf(d, i) {
      var s := SlotOf(d, i);
      assert SlotInData(h, s);
      if s.length != 0 {
        SameTail(d, r, 24, s.offset, s.offset + s.length);
      }
    }
  }

  lemma TaggedIs(d: PageData, tableID: nat)
    requires WellFormed(d) && tableID < TWO32
    ensures WellFormed(Tagged(d, tableID)) && RowsOf(Tagged(d, tableID)) == RowsOf(d)
    ensures HeaderOf(Tagged(d, tableID)) == HeaderOf(d).(tableID := tableID)
  {
    HeaderReadsBack(d, HeaderOf(d).(tableID := tableID));
    SameRows(d, Tagged(d, tableID));
  }

  /** Tagging a page with the tag it has changes no byte. */
  lemma TaggedSame(d: PageData)
    requires |d| == PAGE_SIZE
    ensures Tagged(d, HeaderOf(d).tableID) == d
  {
    hide LittleEndian, FromLittleEndian;
    WritesBack(d[0..8]);
    WritesBack(d[8..12]);
    WritesBack(d[12..14]);
    WritesBack(d[14..16]);
    WritesBack(d[16..18]);
    WritesBack(d[18..20]);
    WritesBack(d[20..24]);
    Glue(d, 0, 8, 12);
    Glue(d, 0, 12, 14);
    Glue(d, 0, 14, 16);
    Glue(d, 0, 16, 18);
    Glue(d, 0, 18, 20);
    Glue(d, 0, 20, 24);
  }

  /** The bytes of a page after a row was added: the row, its slot, the header, and nothing else. */
  lemma WithRowBytes(d: PageData, row: seq<Byte>, lo: nat, hi: nat)
    requires CanAdd(d, row) && lo <= hi <= PAGE_SIZE
    ensures var h := HeaderOf(d); var r := WithRow(d, row); var end := h.freeEnd - |row|;
            && r[end..end + |row|] == row
            && HeaderOf(r) == h.(rowCount := h.rowCount + 1, freeEnd := end, freeOff := SlotPos(h.rowCount + 1))
            && SlotOf(r, h.rowCount) == Slot(end, |row|)
            && ((24 <= lo && hi <= h.freeOff) || h.freeEnd <= lo ==> r[lo..hi] == d[lo..hi])
  {
    hide HeaderOf, SlotOf, FromLittleEndian, LittleEndian, HeaderBytes, SlotBytes, Patch;
    var h := HeaderOf(d);
    var end, n := h.freeEnd - |row|, h.rowCount;
    var h' := h.(rowCount := n + 1, freeEnd := end, freeOff := SlotPos(n + 1));
    var d1 := Patch(d, end, row);
    var d2 := WithSlot(d1, n, Slot(end, |row|));
    PatchElsewhere(d1, SlotPos(n), SlotBytes(Slot(end, |row|)), end, end + |row|);
    PatchElsewhere(d2, 0, HeaderBytes(h'), end, end + |row|);
    SlotReadsBack(d1, n, Slot(end, |row|));
    PatchElsewhere(d2, 0, HeaderBytes(h'), SlotPos(n), SlotPos(n) + 4);
    SlotKept(d2, WithHeader(d2, h'), n);
    HeaderReadsBack(d2, h');
    if (24 <= lo && hi <= h.freeOff) || h.freeEnd <= lo {
      PatchElsewhere(d, end, row, lo, hi);
      PatchElsewhere(d1, SlotPos(n), SlotBytes(Slot(end, |row|)), lo, hi);
      PatchElsewhere(d2, 0, HeaderBytes(h'), lo, hi);
    }
  }

  lemma WithRowSlots(d: PageData, row: seq<Byte>, i: nat)
    requires CanAdd(d, row) && i < HeaderOf(d).rowCount
    ensures SlotOf(WithRow(d, row), i) == SlotOf(d, i)
  {
    WithRowBytes(d, row, SlotPos(i), SlotPos(i) + 4);
    SlotKept(d, WithRow(d, row), i);
  }

  lemma WithRowWellFormed(d: PageData, row: seq<Byte>)
    requires CanAdd(d, row)
    ensures WellFormed(WithRow(d, row))
  {
    hide WithRow, HeaderOf, SlotOf, FromLittleEndian;
    var n, r := HeaderOf(d).rowCount, WithRow(d, row);
    WithRowBytes(d, row, 24, 24);
    forall i | 0 <= i < n ensures SlotOf(r, i) == SlotOf(d, i) && SlotInData(HeaderOf(d), SlotOf(d, i)) {
      WithRowSlots(d, row, i);
    }
  }

  /** Adding a row adds it behind the others, which keep their bytes. */
  lemma WithRowIs(d: PageData, row: seq<Byte>)
    requires CanAdd(d, row)
    ensures WellFormed(WithRow(d, row))
    ensures RowsOf(WithRow(d, row)) == RowsOf(d) + [if row == [] then None else Some(row)]
    ensures HeaderOf(WithRow(d, row)).tableID == HeaderOf(d).tableID
    ensures HeaderOf(WithRow(d, row)).pageID == HeaderOf(d).pageID
    ensures FreeSpace(WithRow(d, row)) == FreeSpace(d) - |row| - SLOT_SIZE
  {
    hide WithRow, HeaderOf, SlotOf, FromLittleEndian;
    var h, r := HeaderOf(d), WithRow(d, row);
    WithRowWellFormed(d, row);
    WithRowBytes(d, row, 24, 24);
    forall i | 0 <= i < h.rowCount ensures RowOf(r, i) == RowOf(d, i) {
      WithRowSlots(d, row, i);
      var s := SlotOf(d, i);
      assert SlotInData(h, s);
      if s.length != 0 {
        WithRowBytes(d, row, s.offset, s.offset + s.length);
      }
    }
    assert RowOf(r, h.rowCount) == if row == [] then None else Some(row);
  }

  lemma WithoutRowSlots(d: PageData, i: nat, j: nat)
    requires WellFormed(d) && i < HeaderOf(d).rowCount && j < HeaderOf(d).rowCount
    ensures SlotOf(WithoutRow(d, i), j) == if j == i then Slot(0, 0) else SlotOf(d, j)
  {
    if j == i {
      SlotReadsBack(d, i, Slot(0, 0));
    } else {
      PatchElsewhere(d, SlotPos(i), SlotBytes(Slot(0, 0)), SlotPos(j), SlotPos(j) + 4);
      SlotKept(d, WithoutRow(d, i), j);
    }
  }

  /** Deleting a row clears it and leaves every other row and the header as they were. */
  lemma WithoutRowIs(d: PageData, i: nat)
    requires WellFormed(d) && i < HeaderOf(d).rowCount
    ensures WellFormed(WithoutRow(d, i))
    ensures RowsOf(WithoutRow(d, i)) == RowsOf(d)[i := None]
    ensures HeaderOf(WithoutRow(d, i)) == HeaderOf(d)
  {
    hide HeaderOf, SlotOf, FromLittleEndian, LittleEndian;
    var h, r := HeaderOf(d), WithoutRow(d, i);
    PatchElsewhere(d, SlotPos(i), SlotBytes(Slot(0, 0)), 0, 24);
    HeaderKept(d, r);
    forall j | 0 <= j < h.rowCount
      ensures SlotOf(r, j) == (if j == i then Slot(0, 0) else SlotOf(d, j)) && SlotInData(h, SlotOf(d, j))
    {
      WithoutRowSlots(d, i, j);
    }
    forall j | 0 <= j < h.rowCount ensures RowOf(r, j) == if j == i then None else RowOf(d, j) {
      var s := SlotOf(d, j);
      if j != i && s.length != 0 {
        PatchElsewhere(d, SlotPos(i), SlotBytes(Slot(0, 0)), s.offset, s.offset + s.length);
      }
    }
  }

  /** A blank page takes any row of up to 4068 bytes, and no longer one. */
  lemma BlankCanAdd(pageID: nat, row: seq<Byte>)
    requires pageID < TWO64
    ensures CanAdd(Blank(pageID), row) <==> |row| <= PAGE_SIZE - HEADER_SIZE - SLOT_SIZE
  {
    BlankIs(pageID);
  }

  // ----- byte by byte -----

  /** The header of a page: each field has its bytes, and behind them nothing changes. */
  lemma HeaderIsLaidOut(d: PageData, h: PageHeader)
    requires |d| == PAGE_SIZE
    ensures var r := WithHeader(d, h);
            && Spells(r[0..8], h.pageID) && Spells(r[8..12], h.tableID) && Spells(r[12..14], h.freeOff)
            && Spells(r[14..16], h.freeEnd) && Spells(r[16..18], h.rowCount) && Spells(r[18..20], h.flags)
            && Spells(r[20..24], h.checksum) && r[24..] == d[24..]
  {
    hide LittleEndian, Spells, Patch;
    var r, b := WithHeader(d, h), HeaderBytes(h);
    assert r[0..24] == b;
    forall lo: nat, hi: nat | lo <= hi <= 24 ensures r[lo..hi] == b[lo..hi] {
      HeaderPart(r, b, lo, hi);
    }
    HeaderParts(h);
    LittleEndianSpells(h.pageID, 8);
    LittleEndianSpells(h.tableID, 4);
    LittleEndianSpells(h.freeOff, 2);
    LittleEndianSpells(h.freeEnd, 2);
    LittleEndianSpells(h.rowCount, 2);
    LittleEndianSpells(h.flags, 2);
    LittleEndianSpells(h.checksum, 4);
  }

  /** The free bytes lie between the two offsets in the header, and there are none if these have crossed. */
  lemma FreeSpaceSays(d: PageData)
    requires |d| == PAGE_SIZE
    ensures Word(d, 12) <= Word(d, 14) ==> Word(d, 12) + FreeSpace(d) == Word(d, 14)
    ensures Word(d, 14) <= Word(d, 12) ==> FreeSpace(d) == 0
  {
    hide FromLittleEndian;
    WordIs(d, 12);
    WordIs(d, 14);
  }

  /** A new page: its number, the end of the header, the end of the page; all else is zero. */
  lemma BlankIsLaidOut(pageID: nat)
    ensures var d := Blank(pageID);
            && Spells(d[0..8], pageID) && Spells(d[12..14], 24) && Spells(d[14..16], 4096)
            && forall i :: 8 <= i < PAGE_SIZE && !(12 <= i < 16) ==> d[i] == 0
  {
    hide Spells, WithHeader;
    var d := Blank(pageID);
    HeaderIsLaidOut(Zeros(PAGE_SIZE), BlankHeader(pageID));
    NoughtSpelled(d[8..12]);
    NoughtSpelled(d[16..18]);
    NoughtSpelled(d[18..20]);
    NoughtSpelled(d[20..24]);
    forall i | 8 <= i < PAGE_SIZE && !(12 <= i < 16) ensures d[i] == 0 {
      if i < 12 {
        assert d[i] == d[8..12][i - 8];
      } else if i < 18 {
        assert d[i] == d[16..18][i - 16];
      } else if i < 20 {
        assert d[i] == d[18..20][i - 18];
      } else if i < 24 {
        assert d[i] == d[20..24][i - 20];
      } else {
        assert d[i] == d[24..][i - 24] == Zeros(PAGE_SIZE)[24..][i - 24];
      }
    }
  }

  lemma NoughtSpelled(b: seq<Byte>)
    requires Spells(b, 0)
    ensures forall j :: 0 <= j < |b| ==> b[j] == 0
  {
    forall j | 0 <= j < |b| ensures b[j] == 0 {
      assert b[j] == 0 / Pow256(j) % 256;
    }
  }

  /** A page with another owner: the four bytes of the table id, and nothing else. */
  lemma TaggedIsLaidOut(d: PageData, t: nat)
    requires |d| == PAGE_SIZE
    ensures var h, r := HeaderOf(d), Tagged(d, t);
            && Spells(r[8..12], t) && Spells(r[0..8], h.pageID) && Spells(r[12..14], h.freeOff)
            && Spells(r[14..16], h.freeEnd) && Spells(r[16..18], h.rowCount) && Spells(r[18..20], h.flags)
            && Spells(r[20..24], h.checksum) && r[24..] == d[24..]
  {
    hide Spells, WithHeader, HeaderOf;
    HeaderIsLaidOut(d, HeaderOf(d).(tableID := t));
  }

  /** Slot i of a page: four bytes behind the header and the slots before, for offset and length. */
  lemma SlotIsLaidOut(d: PageData, i: nat, s: Slot)
    requires |d| == PAGE_SIZE && 24 + 4 * i + 4 <= PAGE_SIZE
    ensures var r, p := WithSlot(d, i, s), 24 + 4 * i;
            && Spells(r[p..p + 2], s.offset) && Spells(r[p + 2..p + 4], s.length)
            && r[..p] == d[..p] && r[p + 4..] == d[p + 4..]
  {
    hide LittleEndian, Spells, Patch;
    var r, p := WithSlot(d, i, s), SlotPos(i);
    assert r[p..p + 2] == r[p..p + 4][0..2] == LittleEndian(s.offset, 2);
    assert r[p + 2..p + 4] == r[p..p + 4][2..4] == LittleEndian(s.length, 2);
    LittleEndianSpells(s.offset, 2);
    LittleEndianSpells(s.length, 2);
  }

  /** A row stands right below the data before it, its slot right behind the slots before, and the header says so. */
  lemma RowIsLaidOut(d: PageData, row: seq<Byte>)
    requires CanAdd(d, row)
    ensures var h, r := HeaderOf(d), WithRow(d, row); var end, p := h.freeEnd - |row|, 24 + 4 * h.rowCount;
            && r[end..h.freeEnd] == row && Spells(r[p..p + 2], end) && Spells(r[p + 2..p + 4], |row|)
            && Spells(r[12..14], p + 4) && Spells(r[14..16], end) && Spells(r[16..18], h.rowCount + 1)
            && Spells(r[0..8], h.pageID) && Spells(r[8..12], h.tableID) && Spells(r[18..20], h.flags)
            && Spells(r[20..24], h.checksum)
            && r[24..p] == d[24..p] && r[h.freeEnd..] == d[h.freeEnd..]
  {
    hide LittleEndian, Spells, Patch, HeaderOf;
    var h, end := HeaderOf(d), HeaderOf(d).freeEnd - |row|;
    var p := SlotPos(h.rowCount);
    var d1 := Patch(d, end, row);
    var d2 := WithSlot(d1, h.rowCount, Slot(end, |row|));
    var r := WithRow(d, row);
    SlotIsLaidOut(d1, h.rowCount, Slot(end, |row|));
    HeaderIsLaidOut(d2, h.(rowCount := h.rowCount + 1, freeEnd := end, freeOff := SlotPos(h.rowCount + 1)));
    SameTail(d2, r, 24, p, p + 2);
    SameTail(d2, r, 24, p + 2, p + 4);
    WithRowBytes(d, row, 24, p);
    WithRowBytes(d, row, h.freeEnd, PAGE_SIZE);
  }
}
