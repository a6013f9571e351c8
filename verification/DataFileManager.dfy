/** Data pages and their free-space map (src/file_manager/data_file_manager.cpp). */
module DataFileManager {
  import opened Basics
  import opened SlottedPage
  import opened FreeSpaceMap

  type MapPages = seq<seq<Entry>>

  const NO_PAGE: PageID := 0

  ghost predicate HasEntry(maps: MapPages, d: PageID) {
    && 1 <= d <= |maps| * MAX_SIZE
    && 0 <= ToMapPageID(d) - 1 < |maps| && 0 <= ToMapIndex(d) < |maps[ToMapPageID(d) - 1]|
  }

  /** The map's entry for data page d. */
  ghost function EntryOf(maps: MapPages, d: PageID): Entry {
    if HasEntry(maps, d) then maps[ToMapPageID(d) - 1][ToMapIndex(d)] else UNUSED_ENTRY
  }

  function SetEntry(maps: MapPages, m: int, j: int, e: Entry): MapPages
    requires 1 <= m <= |maps| && 0 <= j < |maps[m - 1]|
  {
    maps[m - 1 := maps[m - 1][j := e]]
  }

  ghost predicate WholePages(maps: MapPages) {
    forall m :: 0 <= m < |maps| ==> |maps[m]| == MAX_SIZE
  }

  /** Data pages exist densely from 1 on; a map page beyond the first exists only if all earlier entries have pages;
      every entry is a sound account of its page, except that of a page with a reservation pending. */
  ghost predicate FilesOk(maps: MapPages, pages: map<PageID, DataPage>, next: PageID, pending: PageID) {
    && WholePages(maps)
    && 1 <= next <= |maps| * MAX_SIZE + 1
    && (|maps| > 0 ==> (|maps| - 1) * MAX_SIZE + 1 < next)
    && (forall d {:trigger d in pages} :: d in pages <==> 1 <= d < next)
    && (forall d {:trigger pages[d]} :: d in pages ==> PageOk(pages[d]))
    && (forall d {:trigger EntryOf(maps, d)} :: d in pages && d != pending ==> Accounts(EntryOf(maps, d), pages[d]))
    && (forall d {:trigger EntryOf(maps, d)} :: next <= d ==> EntryOf(maps, d) == UNUSED_ENTRY)
  }

  /** Exactly the entry of page id is debited with a record of this size. */
  ghost predicate Debited(maps: MapPages, maps': MapPages, id: PageID, size: int) {
    forall d {:trigger EntryOf(maps', d)} ::
      EntryOf(maps', d) == var e := EntryOf(maps, d); if d == id then SubFreeSpace(e, e.invalidSlotNum > 0, size) else e
  }

  /** Exactly the entry of page id is credited, with one invalid slot and this many bytes. */
  ghost predicate Credited(maps: MapPages, maps': MapPages, id: PageID, size: int) {
    forall d {:trigger EntryOf(maps', d)} ::
      EntryOf(maps', d) == var e := EntryOf(maps, d); if d == id then Entry(e.invalidSlotNum + 1, e.freeSpace + size) else e
  }

  /** The entry of page id falls behind by `more` bytes; the others are as far behind their pages as before, and those of
      new pages are exact. */
  ghost predicate FallsBehind(maps: MapPages, pages: map<PageID, DataPage>, maps': MapPages, pages': map<PageID, DataPage>,
                              id: PageID, more: int)
  {
    && pages.Keys <= pages'.Keys
    && forall d {:trigger Behind(EntryOf(maps', d), pages'[d])} :: d in pages' ==>
         Behind(EntryOf(maps', d), pages'[d]) ==
           (if d in pages then Behind(EntryOf(maps, d), pages[d]) else 0) + if d == id then more else 0
  }

  /** Page id is the first one with room for a record of this size and for what its entry is behind; if there is none, it is
      the next page. */
  ghost predicate FirstFit(maps: MapPages, pages: map<PageID, DataPage>, id: PageID, size: int) {
    && (forall d {:trigger Behind(EntryOf(maps, d), pages[d])} :: d in pages && d < id ==> !Fits(pages[d], size + Behind(EntryOf(maps, d), pages[d])))
    && if id in pages then Fits(pages[id], size + Behind(EntryOf(maps, id), pages[id])) else forall d {:trigger d in pages} :: d in pages <==> 1 <= d < id
  }

  lemma EntryAt(maps: MapPages, d: PageID)
    requires WholePages(maps) && 1 <= d <= |maps| * MAX_SIZE
    ensures HasEntry(maps, d)
  {
  }

  lemma SetEntryOf(maps: MapPages, m: int, j: int, e: Entry)
    requires WholePages(maps) && 1 <= m <= |maps| && 0 <= j < MAX_SIZE
    ensures var maps' := SetEntry(maps, m, j, e);
            && WholePages(maps') && |maps'| == |maps|
            && forall d {:trigger EntryOf(maps', d)} :: EntryOf(maps', d) == if d == ToDataPageID(m, j) then e else EntryOf(maps, d)
  {
    var maps' := SetEntry(maps, m, j, e);
    forall d ensures EntryOf(maps', d) == if d == ToDataPageID(m, j) then e else EntryOf(maps, d) {
      if 1 <= d <= |maps| * MAX_SIZE {
        EntryAt(maps, d);
        EntryAt(maps', d);
        Conversion(m, j, d);
      }
    }
  }

  lemma AppendMap(maps: MapPages, newPage: seq<Entry>)
    requires WholePages(maps) && |newPage| == MAX_SIZE && forall j :: 0 <= j < MAX_SIZE ==> newPage[j] == UNUSED_ENTRY
    ensures WholePages(maps + [newPage])
    ensures forall d {:trigger EntryOf(maps + [newPage], d)} :: EntryOf(maps + [newPage], d) == EntryOf(maps, d)
  {
    var maps' := maps + [newPage];
    forall d ensures EntryOf(maps', d) == EntryOf(maps, d) {
      if 1 <= d <= |maps'| * MAX_SIZE {
        EntryAt(maps', d);
      }
    }
  }

  /** If no entry fits, every entry has its page: an unused entry would have fitted. */
  lemma AllUsed(maps: MapPages, pages: map<PageID, DataPage>, next: PageID, size: int)
    requires FilesOk(maps, pages, next, NO_PAGE) && 1 <= size <= MAX_RECORD_SIZE
    requires forall d :: 1 <= d < |maps| * MAX_SIZE + 1 ==> !EntryFits(EntryOf(maps, d), size)
    ensures next == |maps| * MAX_SIZE + 1
  {
    UnusedFits(size);
    assert EntryOf(maps, next) == UNUSED_ENTRY;
  }

  /** The first fitting entry belongs to an existing page or to the very next one. */
  lemma UpToNext(maps: MapPages, pages: map<PageID, DataPage>, next: PageID, id: PageID, size: int)
    requires FilesOk(maps, pages, next, NO_PAGE) && 1 <= size <= MAX_RECORD_SIZE
    requires forall d :: 1 <= d < id ==> !EntryFits(EntryOf(maps, d), size)
    ensures id <= next
  {
    UnusedFits(size);
    assert EntryOf(maps, next) == UNUSED_ENTRY;
  }

  /** The first entry that fits is the entry of the first page with room. */
  lemma FirstEntryFirstPage(maps: MapPages, pages: map<PageID, DataPage>, next: PageID, id: PageID, size: int)
    requires FilesOk(maps, pages, next, NO_PAGE) && 1 <= id <= next
    requires EntryFits(EntryOf(maps, id), size) && forall d :: 1 <= d < id ==> !EntryFits(EntryOf(maps, d), size)
    ensures FirstFit(maps, pages, id, size)
  {
    forall d | d in pages ensures EntryFits(EntryOf(maps, d), size) <==> Fits(pages[d], size + Behind(EntryOf(maps, d), pages[d])) {
      assert Accounts(EntryOf(maps, d), pages[d]);
      EntryFitsExactly(EntryOf(maps, d), pages[d], size);
    }
  }

  /** A record stored under its reservation, on a page that may have been added for it, leaves every entry as far behind as
      it was. */
  lemma StoredGaps(maps: MapPages, pages: map<PageID, DataPage>, next: PageID, maps': MapPages, pages': map<PageID, DataPage>,
                   id: PageID, size: int, p: DataPage)
    requires FilesOk(maps, pages, next, NO_PAGE) && Debited(maps, maps', id, size) && id <= next
    requires pages' == if id in pages then pages else pages[id := EmptyPage(ZeroBytes())]
    requires id in pages' && Behind(EntryOf(maps', id), p) == Behind(EntryOf(maps, id), pages'[id])
    ensures FallsBehind(maps, pages, maps', pages'[id := p], id, 0)
  {
    assert id !in pages && id >= next ==> EntryOf(maps, id) == UNUSED_ENTRY;
    forall d | d in pages' && d != id ensures EntryOf(maps', d) == EntryOf(maps, d) {
    }
  }

  /** Crediting a page's entry when a record is taken off the page keeps the map sound, and leaves the entry behind by what
      was not credited. */
  lemma RemovedOk(maps: MapPages, pages: map<PageID, DataPage>, next: PageID, maps': MapPages, id: PageID, k: int, size: int)
    requires FilesOk(maps, pages, next, NO_PAGE) && id in pages && k in Records(pages[id])
    requires 0 <= size <= |Records(pages[id])[k].bytes| && WholePages(maps') && |maps'| == |maps|
    requires forall d {:trigger EntryOf(maps', d)} ::
               EntryOf(maps', d) == var e := EntryOf(maps, d); if d == id then AddFreeSpace(e, size) else e
    ensures PageOk(PageRemove(pages[id], k)) && Credited(maps, maps', id, size)
    ensures var pages' := pages[id := PageRemove(pages[id], k)];
            && FilesOk(maps', pages', next, NO_PAGE)
            && FallsBehind(maps, pages, maps', pages', id, |Records(pages[id])[k].bytes| - size)
  {
    var e, pages' := EntryOf(maps, id), pages[id := PageRemove(pages[id], k)];
    assert Accounts(e, pages[id]);
    RemoveOk(pages[id], k);
    ReleaseAccounts(e, pages[id], k, size);
    forall d | d in pages' && d != id ensures EntryOf(maps', d) == EntryOf(maps, d) {
    }
  }

  /** No entry of the map fits a record longer than the maximum, whatever the pages hold. */
  lemma TooLongFindsNothing(maps: MapPages, pages: map<PageID, DataPage>, next: PageID, size: int)
    requires FilesOk(maps, pages, next, NO_PAGE) && size > MAX_RECORD_SIZE
    ensures forall d {:trigger EntryOf(maps, d)} :: 1 <= d ==> !EntryFits(EntryOf(maps, d), size)
  {
    forall d | 1 <= d ensures !EntryFits(EntryOf(maps, d), size) {
      if d in pages {
        TooLongNeverFits(pages[d], size);
      } else {
        UnusedFits(size);
      }
    }
  }

  /** An entry that accounts for no page, and not for an unused one, breaks the map, whatever the pages hold. */
  lemma BrokenMap(maps: MapPages, pages: map<PageID, DataPage>, next: PageID, d: PageID)
    requires d >= 1 && EntryOf(maps, d) != UNUSED_ENTRY && forall p :: PageOk(p) ==> !Accounts(EntryOf(maps, d), p)
    ensures !FilesOk(maps, pages, next, NO_PAGE)
  {
    assert d in pages && PageOk(pages[d]) ==> !Accounts(EntryOf(maps, d), pages[d]);
  }

  class DataFileManager {
    var mapPages: MapPages
    var mapNextPageID: PageID
    var dataPages: map<PageID, DataPage>
    var dataNextPageID: PageID

    ghost predicate Ok(pending: PageID)
      reads this
    {
      FilesOk(mapPages, dataPages, dataNextPageID, pending) && mapNextPageID == |mapPages| + 1
    }

    ghost predicate Valid()
      reads this
    {
      Ok(NO_PAGE)
    }

    /** The map pages have their full size, in any state. */
    ghost predicate Shaped()
      reads this
    {
      WholePages(mapPages) && mapNextPageID == |mapPages| + 1
    }

    constructor ()
      ensures Valid() && dataPages == map[] && dataNextPageID == 1
    {
      mapPages, mapNextPageID := [], 1;
      dataPages, dataNextPageID := map[], 1;
    }

    /** The first entry, in page order, that has room for a record of this size. */
    method FindEntry(size: int) returns (found: bool, i: int, j: int)
      requires Shaped() && size >= 1
      ensures found ==> 1 <= i <= |mapPages| && 0 <= j < MAX_SIZE && EntryFits(EntryOf(mapPages, ToDataPageID(i, j)), size)
      ensures forall d :: 1 <= d < (if found then ToDataPageID(i, j) else |mapPages| * MAX_SIZE + 1) ==>
                !EntryFits(EntryOf(mapPages, d), size)
    {
      i, j := 1, 0;
      while i < mapNextPageID
        invariant 1 <= i <= mapNextPageID
        invariant forall d :: 1 <= d < ToDataPageID(i, 0) ==> !EntryFits(EntryOf(mapPages, d), size)
      {
        j := 0;
        while j < MAX_SIZE
          invariant 0 <= j <= MAX_SIZE
          invariant forall d :: 1 <= d < ToDataPageID(i, j) ==> !EntryFits(EntryOf(mapPages, d), size)
        {
          Conversion(i, j, 1);
          EntryAt(mapPages, ToDataPageID(i, j));
          if EntryFits(mapPages[i - 1][j], size) {
            return true, i, j;
          }
          j := j + 1;
        }
        i := i + 1;
      }
      return false, i, 0;
    }

    /** Finds or creates a page for a record of this size and reserves the space in the map. */
    method AllocateDataPage(size: int) returns (id: PageID)
      requires Shaped() && 1 <= size <= RECORD_SIZE_LIMIT
      modifies this
      // the page is the first one that fits, or else the first one of a new map page
      ensures Shaped() && id >= 1 && forall d :: 1 <= d < id ==> !EntryFits(EntryOf(old(mapPages), d), size)
      ensures EntryFits(EntryOf(old(mapPages), id), size) || id == |old(mapPages)| * MAX_SIZE + 1
      // only its entry is debited
      ensures Debited(old(mapPages), mapPages, id, size)
      // a page from the next id on is created, or emptied if it is there already
      ensures id < old(dataNextPageID) ==> dataPages == old(dataPages) && dataNextPageID == old(dataNextPageID)
      ensures id >= old(dataNextPageID) ==>
                dataPages == old(dataPages)[id := EmptyPage(ZeroBytes())] && dataNextPageID == old(dataNextPageID) + 1
      // on sound files, no page is emptied, and the page fits exactly up to the maximum size
      ensures old(Valid()) ==>
                && (id in old(dataPages) <==> id < old(dataNextPageID))
                && (EntryFits(EntryOf(old(mapPages), id), size) <==> size <= MAX_RECORD_SIZE)
      // up to the maximum size it is created as the next one, and the entry accounted for the page so far
      ensures old(Valid()) && size <= MAX_RECORD_SIZE ==>
                && Ok(id) && id <= old(dataNextPageID) && Accounts(EntryOf(old(mapPages), id), dataPages[id])
                && FirstFit(old(mapPages), old(dataPages), id, size)
      // beyond, nothing fits
      ensures old(Valid()) && size > MAX_RECORD_SIZE ==>
                id == |old(mapPages)| * MAX_SIZE + 1 && id !in old(dataPages) && EntryOf(old(mapPages), id) == UNUSED_ENTRY
    {
      id := ReserveEntry(size);
      if dataNextPageID <= id {
        EmptyOk(ZeroBytes());
        dataPages := dataPages[id := EmptyPage(ZeroBytes())];
        dataNextPageID := dataNextPageID + 1;
      }
    }

    /** Debits the first fitting entry, adding a map page if there is none. */
    method ReserveEntry(size: int) returns (id: PageID)
      requires Shaped() && 1 <= size <= RECORD_SIZE_LIMIT
      modifies `mapPages, `mapNextPageID
      ensures Shaped() && 1 <= id <= |mapPages| * MAX_SIZE
      ensures forall d :: 1 <= d < id ==> !EntryFits(EntryOf(old(mapPages), d), size)
      ensures EntryFits(EntryOf(old(mapPages), id), size) || id == |old(mapPages)| * MAX_SIZE + 1
      ensures Debited(old(mapPages), mapPages, id, size)
      ensures old(Valid()) ==> (EntryFits(EntryOf(old(mapPages), id), size) <==> size <= MAX_RECORD_SIZE)
      // a map page is added only once all earlier entries have their pages ...
      ensures old(Valid()) && size <= MAX_RECORD_SIZE ==>
                && id <= dataNextPageID && FirstFit(old(mapPages), dataPages, id, size)
                && (mapPages == [] || (|mapPages| - 1) * MAX_SIZE + 1 < (if id == dataNextPageID then id + 1 else dataNextPageID))
                && dataNextPageID <= |mapPages| * MAX_SIZE + (if id == dataNextPageID then 0 else 1)
      // ... or if the record is too long for any page
      ensures old(Valid()) && size > MAX_RECORD_SIZE ==>
                id == |old(mapPages)| * MAX_SIZE + 1 && EntryOf(old(mapPages), id) == UNUSED_ENTRY
    {
      UnusedFits(size);
      ghost var maps, sound := mapPages, Valid();
      var found, i, j := FindEntry(size);
      if Valid() {
        if size > MAX_RECORD_SIZE {
          TooLongFindsNothing(mapPages, dataPages, dataNextPageID, size);
        } else if found {
          UpToNext(mapPages, dataPages, dataNextPageID, ToDataPageID(i, j), size);
        } else {
          AllUsed(mapPages, dataPages, dataNextPageID, size);
        }
      }
      if !found {
        i, j := mapNextPageID, 0;
        var newMap := InitMapPage();
        AppendMap(mapPages, newMap);
        mapPages := mapPages + [newMap];
        mapNextPageID := mapNextPageID + 1;
      }
      id := ToDataPageID(i, j);
      EntryAt(mapPages, id);
      Conversion(i, j, id);
      if sound && size <= MAX_RECORD_SIZE {
        FirstEntryFirstPage(maps, dataPages, dataNextPageID, id, size);
      }
      var e := mapPages[i - 1][j];
      SetEntryOf(mapPages, i, j, SubFreeSpace(e, e.invalidSlotNum > 0, size));
      mapPages := SetEntry(mapPages, i, j, SubFreeSpace(e, e.invalidSlotNum > 0, size));
    }

    /** A map page whose entries all stand for pages without records. */
    method InitMapPage() returns (m: seq<Entry>)
      ensures |m| == MAX_SIZE && forall j :: 0 <= j < MAX_SIZE ==> m[j] == UNUSED_ENTRY
    {
      var a := new Entry[MAX_SIZE](_ => Entry(0, 0));
      for i := 0 to MAX_SIZE
        invariant forall j :: 0 <= j < i ==> a[j] == UNUSED_ENTRY
      {
        a[i] := Entry(0, PAGE_SIZE - MIN_FIXED_SIZE);
      }
      m := a[..];
    }

    /** Writes back the page for which space was reserved, with a record inserted. */
    method StoreInserted(id: PageID, record: seq<Byte>, isBlob: bool, ghost before: Entry)
      requires Ok(id) && id in dataPages && 1 <= |record|
      requires Accounts(before, dataPages[id]) && EntryFits(before, |record|)
      requires EntryOf(mapPages, id) == SubFreeSpace(before, before.invalidSlotNum > 0, |record|)
      modifies this`dataPages
      ensures Valid() && Fits(old(dataPages)[id], |record|)
      ensures dataPages == old(dataPages)[id := PageInsert(old(dataPages)[id], record, isBlob)]
      ensures Behind(EntryOf(mapPages, id), dataPages[id]) == Behind(before, old(dataPages)[id])
    {
      ReserveAccounts(before, dataPages[id], record, isBlob);
      InsertOk(dataPages[id], record, isBlob);
      dataPages := dataPages[id := PageInsert(dataPages[id], record, isBlob)];
    }

    /** Writes back a page after a record was inserted that does not fit. The source does not check this; its writes then
        run over the slot array, and if the record is longer than a page, in front of the page too. What the page holds
        afterwards is left open, and in the second case what any page holds. */
    method StoreOverlapping(id: PageID, size: int)
      requires id in dataPages && PageOk(dataPages[id]) && !Fits(dataPages[id], size)
      modifies this`dataPages
      ensures size <= PAGE_SIZE ==>
                dataPages.Keys == old(dataPages.Keys) && forall d :: d in dataPages && d != id ==> dataPages[d] == old(dataPages)[d]
    {
      if size <= PAGE_SIZE {
        var page: DataPage := *;
        dataPages := dataPages[id := page];
      } else {
        var pages: map<PageID, DataPage> := *;
        dataPages := pages;
      }
    }

    /** Takes a record off its page and credits the map with `size` bytes, and with the invalid slot. */
    method RemoveAndCredit(id: PageID, k: int, size: int)
      requires Valid() && id in dataPages && k in Records(dataPages[id])
      requires 0 <= size <= |Records(dataPages[id])[k].bytes|
      modifies this
      ensures Valid() && dataPages == old(dataPages)[id := PageRemove(old(dataPages)[id], k)]
      ensures dataNextPageID == old(dataNextPageID) && Credited(old(mapPages), mapPages, id, size)
      ensures FallsBehind(old(mapPages), old(dataPages), mapPages, dataPages, id, |Records(old(dataPages)[id])[k].bytes| - size)
    {
      ghost var maps, pages := mapPages, dataPages;
      RecordsAt(dataPages[id], k);
      dataPages := dataPages[id := PageRemove(dataPages[id], k)];
      AddFreeSpaceTo(id, size);
      RemovedOk(maps, pages, dataNextPageID, mapPages, id, k, size);
    }

    /** Credits the map entry of a data page. */
    method AddFreeSpaceTo(pageID: PageID, size: int)
      requires WholePages(mapPages) && 1 <= pageID <= |mapPages| * MAX_SIZE
      modifies this`mapPages
      ensures WholePages(mapPages) && |mapPages| == old(|mapPages|)
      ensures forall d {:trigger EntryOf(mapPages, d)} ::
                EntryOf(mapPages, d) == var e := EntryOf(old(mapPages), d); if d == pageID then AddFreeSpace(e, size) else e
    {
      var m, j := ToMapPageID(pageID), ToMapIndex(pageID);
      EntryAt(mapPages, pageID);
      Conversion(1, 0, pageID);
      var e := mapPages[m - 1][j];
      SetEntryOf(mapPages, m, j, AddFreeSpace(e, size));
      mapPages := SetEntry(mapPages, m, j, AddFreeSpace(e, size));
    }
  }

  function ZeroMapPage(): seq<Entry> {
    seq(MAX_SIZE, _ => Entry(0, 0))
  }

  /** In the entries of a map page of zeros nothing fits. */
  lemma ZerosFitNothing(maps: MapPages, size: int)
    requires maps == [ZeroMapPage()] && size >= 1
    ensures WholePages(maps)
    ensures forall d {:trigger EntryOf(maps, d)} :: 1 <= d <= MAX_SIZE ==> !EntryFits(EntryOf(maps, d), size)
  {
    forall d | 1 <= d <= MAX_SIZE ensures !EntryFits(EntryOf(maps, d), size) {
      EntryAt(maps, d);
      Conversion(1, 0, d);
    }
  }

  lemma FirstFitIs(maps: MapPages, size: int, id: PageID, n: PageID)
    requires 1 <= n <= |maps| * MAX_SIZE + 1 && id >= 1
    requires (forall d :: 1 <= d < n ==> !EntryFits(EntryOf(maps, d), size)) && EntryFits(EntryOf(maps, n), size)
    requires forall d :: 1 <= d < id ==> !EntryFits(EntryOf(maps, d), size)
    requires EntryFits(EntryOf(maps, id), size) || id == |maps| * MAX_SIZE + 1
    ensures id == n
  {
  }

  /** After a record went to the first page of a new map page behind one of zeros, a second record finds room there. */
  lemma FitsBehindZeros(lost: MapPages, maps: MapPages, id: PageID, n: int, size: int)
    requires lost == [ZeroMapPage()] && id == MAX_SIZE + 1 && Debited(lost, maps, id, n)
    requires n >= 1 && size >= 1 && n + size + 2 * SLOT_SIZE <= UNUSED_ENTRY.freeSpace
    ensures id <= |maps| * MAX_SIZE && EntryFits(EntryOf(maps, id), size)
    ensures forall d :: 1 <= d < id ==> !EntryFits(EntryOf(maps, d), size)
  {
    ZerosFitNothing(lost, size);
    assert EntryOf(lost, id) == UNUSED_ENTRY;
    assert EntryOf(maps, id) == SubFreeSpace(UNUSED_ENTRY, false, n);
    forall d | 1 <= d < id ensures !EntryFits(EntryOf(maps, d), size) {
      assert EntryOf(maps, d) == EntryOf(lost, d);
    }
  }

  /** What a lost change of a map page does. The first allocation unpins map page 1 without a report; it is evicted and reads
      as zeros from then on. The second record goes to the first page of a new map page, which is far beyond the next
      page id. The third allocation finds room there, takes the page for a new one, and empties it. */
  method LoseMapPage(first: int, second: seq<Byte>, third: int) returns (m: DataFileManager, id: PageID, ghost page: DataPage)
    requires 1 <= first <= MAX_RECORD_SIZE && 1 <= |second| && 1 <= third && |second| + third + 2 * SLOT_SIZE <= UNUSED_ENTRY.freeSpace
    ensures id == MAX_SIZE + 1 && PageOk(page) && Records(page) == map[0 := Record(second, false)]
    ensures id in m.dataPages && m.dataPages[id] == EmptyPage(ZeroBytes())
  {
    m := new DataFileManager();
    var _ := m.AllocateDataPage(first);
    m.mapPages := [ZeroMapPage()];
    id, page := StoreBehindZeros(m, second);
    ghost var maps := m.mapPages;
    FitsBehindZeros([ZeroMapPage()], maps, id, |second|, third);
    var again := m.AllocateDataPage(third);
    FirstFitIs(maps, third, again, id);
  }

  method StoreBehindZeros(m: DataFileManager, record: seq<Byte>) returns (id: PageID, ghost page: DataPage)
    requires m.Shaped() && m.mapPages == [ZeroMapPage()] && m.dataNextPageID <= MAX_SIZE - 1
    requires 1 <= |record| <= MAX_RECORD_SIZE
    modifies m
    ensures m.Shaped() && id == MAX_SIZE + 1 && Debited([ZeroMapPage()], m.mapPages, id, |record|)
    ensures id in m.dataPages && m.dataPages[id] == page && m.dataNextPageID < id
    ensures PageOk(page) && Records(page) == map[0 := Record(record, false)]
  {
    ghost var lost := m.mapPages;
    ZerosFitNothing(lost, |record|);
    UnusedFits(|record|);
    id := m.AllocateDataPage(|record|);
    FirstFitIs(lost, |record|, id, MAX_SIZE + 1);
    EmptyOk(ZeroBytes());
    InsertRefines(m.dataPages[id], record, false);
    m.dataPages := m.dataPages[id := PageInsert(m.dataPages[id], record, false)];
    page := m.dataPages[id];
  }
}
