/** The free-space map and its arithmetic (src/page/free_space_map_file_page.cpp and the convertTo functions of
    src/file_manager/data_file_manager.cpp). */
module FreeSpaceMap {
  import opened Basics
  import opened SlottedPage

  /** Both fields are 16-bit unsigned in the source. */
  datatype Entry = Entry(invalidSlotNum: int, freeSpace: int)

  /** Entries per map page. */
  const MAX_SIZE: nat := 1024

  /** The largest record size: sizes are passed as 16-bit signed numbers. */
  const RECORD_SIZE_LIMIT: int := 0x7FFF

  const UNUSED_ENTRY: Entry := Entry(0, PAGE_SIZE - MIN_FIXED_SIZE)

  function Wrap16(x: int): int {
    x % 0x1_0000
  }

  function AddFreeSpace(e: Entry, size: int): Entry {
    Entry(Wrap16(e.invalidSlotNum + 1), Wrap16(e.freeSpace + size))
  }

  function SubFreeSpace(e: Entry, usedInvalidSlot: bool, size: int): Entry {
    if usedInvalidSlot then Entry(Wrap16(e.invalidSlotNum - 1), Wrap16(e.freeSpace - size))
    else Entry(e.invalidSlotNum, Wrap16(e.freeSpace - (size + SLOT_SIZE)))
  }

  /** Whether the map believes that a record of this size fits. */
  predicate EntryFits(e: Entry, size: int) {
    (e.invalidSlotNum > 0 && e.freeSpace >= size) || e.freeSpace >= size + SLOT_SIZE
  }

  function ToDataPageID(mapPageID: int, mapIndex: int): int {
    (mapPageID - 1) * MAX_SIZE + mapIndex + 1
  }

  function ToMapPageID(dataPageID: int): int {
    (dataPageID - 1) / MAX_SIZE + 1
  }

  function ToMapIndex(dataPageID: int): int {
    (dataPageID - 1) % MAX_SIZE
  }

  /** Map entries and data pages correspond one to one, in order. */
  lemma Conversion(m: int, j: int, d: int)
    requires m >= 1 && 0 <= j < MAX_SIZE && d >= 1
    ensures ToMapPageID(ToDataPageID(m, j)) == m && ToMapIndex(ToDataPageID(m, j)) == j
    ensures ToDataPageID(ToMapPageID(d), ToMapIndex(d)) == d
    ensures ToMapPageID(d) >= 1 && 0 <= ToMapIndex(d) < MAX_SIZE && ToDataPageID(m, j) >= 1
  {
  }

  /** The entry is a sound account of the page: exact for invalid slots, never optimistic about bytes. */
  ghost predicate Accounts(e: Entry, p: DataPage) {
    && e.invalidSlotNum == p.invalidNum
    && 0 <= e.freeSpace <= FreeBytes(p)
  }

  /** How many bytes the entry is behind its page. */
  function Behind(e: Entry, p: DataPage): int {
    FreeBytes(p) - e.freeSpace
  }

  /** A sound entry says that a record fits exactly if the page has room for the record and for as many bytes more as the
      entry is behind: an exact entry says so exactly if it does fit. */
  lemma EntryFitsExactly(e: Entry, p: DataPage, size: int)
    requires PageOk(p) && Accounts(e, p)
    ensures EntryFits(e, size) <==> Fits(p, size + Behind(e, p))
  {
    PageBounds(p);
  }

  lemma PageBounds(p: DataPage)
    requires PageOk(p)
    ensures 0 <= p.invalidNum <= |p.slots| && SLOT_SIZE * |p.slots| <= PAGE_SIZE && FreeBytes(p) <= PAGE_SIZE
  {
  }

  lemma ReserveArithmetic(e: Entry, free: int, size: int)
    requires 0 <= e.invalidSlotNum <= PAGE_SIZE && 0 <= e.freeSpace <= free <= PAGE_SIZE && size >= 1 && EntryFits(e, size)
    ensures var reuse := e.invalidSlotNum > 0;
            var e' := SubFreeSpace(e, reuse, size);
            && size + (if reuse then 0 else SLOT_SIZE) <= free
            && e'.invalidSlotNum == (if reuse then e.invalidSlotNum - 1 else 0)
            && 0 <= e'.freeSpace == e.freeSpace - size - (if reuse then 0 else SLOT_SIZE)
  {
  }

  /** A fit according to the map is a fit on the page, and the reservation is exactly what insertion will use. */
  lemma ReserveAccounts(e: Entry, p: DataPage, record: seq<Byte>, isBlob: bool)
    requires PageOk(p) && Accounts(e, p) && |record| >= 1 && EntryFits(e, |record|)
    ensures Fits(p, |record|)
    ensures Accounts(SubFreeSpace(e, e.invalidSlotNum > 0, |record|), PageInsert(p, record, isBlob))
    ensures Behind(SubFreeSpace(e, e.invalidSlotNum > 0, |record|), PageInsert(p, record, isBlob)) == Behind(e, p)
  {
    PageBounds(p);
    ReserveArithmetic(e, FreeBytes(p), |record|);
    assert Fits(p, |record|);
    InsertRefines(p, record, isBlob);
  }

  lemma ReleaseArithmetic(e: Entry, free: int, size: int)
    requires 0 <= e.invalidSlotNum <= PAGE_SIZE && 0 <= e.freeSpace <= free && 0 <= size && free + size <= PAGE_SIZE
    ensures var e' := AddFreeSpace(e, size);
            e'.invalidSlotNum == e.invalidSlotNum + 1 && e'.freeSpace == e.freeSpace + size
  {
  }

  /** Giving back no more than the record's length keeps the account sound and never wraps; what is not given back, the
      entry falls behind. */
  lemma ReleaseAccounts(e: Entry, p: DataPage, k: int, size: int)
    requires PageOk(p) && Accounts(e, p) && k in Records(p) && 0 <= size <= |Records(p)[k].bytes|
    ensures Accounts(AddFreeSpace(e, size), PageRemove(p, k))
    ensures AddFreeSpace(e, size) == Entry(e.invalidSlotNum + 1, e.freeSpace + size)
    ensures Behind(AddFreeSpace(e, size), PageRemove(p, k)) == Behind(e, p) + |Records(p)[k].bytes| - size
  {
    PageBounds(p);
    RemoveRefines(p, k);
    PageBounds(PageRemove(p, k));
    ReleaseArithmetic(e, FreeBytes(p), size);
  }

  /** A page that was never used takes any record up to the maximum size, and no larger one. */
  lemma UnusedFits(size: int)
    requires size >= 1
    ensures EntryFits(UNUSED_ENTRY, size) <==> size <= MAX_RECORD_SIZE
  {
  }

  /** A longer record fits on no page at all, and no sound account of a page says that it does. */
  lemma TooLongNeverFits(p: DataPage, size: int)
    requires PageOk(p) && size > MAX_RECORD_SIZE
    ensures !Fits(p, size)
    ensures forall e :: Accounts(e, p) ==> !EntryFits(e, size)
  {
    PageBounds(p);
  }

  /** Debiting an unused page with a longer record wraps around: the entry then promises more than any page has. */
  lemma TooLongWraps(size: int)
    requires MAX_RECORD_SIZE < size <= RECORD_SIZE_LIMIT
    ensures SubFreeSpace(UNUSED_ENTRY, false, size).freeSpace > PAGE_SIZE
    ensures forall p :: PageOk(p) ==> !Accounts(SubFreeSpace(UNUSED_ENTRY, false, size), p)
  {
    forall p | PageOk(p) ensures !Accounts(SubFreeSpace(UNUSED_ENTRY, false, size), p) {
      PageBounds(p);
    }
  }
}
