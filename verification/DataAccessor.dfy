/** Records by id: short ones in slotted pages, long ones as blobs (src/data_accessor.cpp). */
module DataAccessor {
  import opened Basics
  import opened SlottedPage
  import opened FreeSpaceMap
  import opened DataFileManager
  import opened BlobStore
  import opened PageFile

  datatype Rec = Rec(key: seq<Byte>, value: seq<Byte>)

  const PAGE_ID_SIZE: nat := 4

  /** The bytes of a 32-bit page id, least significant first. */
  function EncodeID(id: int): (s: seq<Byte>)
    ensures |s| == PAGE_ID_SIZE
  {
    [id % 256, id / 256 % 256, id / 65536 % 256, id / 16777216 % 256]
  }

  function DecodeID(s: seq<Byte>): int
    requires |s| == PAGE_ID_SIZE
  {
    s[0] + 256 * s[1] + 65536 * s[2] + 16777216 * s[3]
  }

  lemma DecodeEncode(id: int)
    requires 0 <= id <= INVALID_PAGE_ID
    ensures DecodeID(EncodeID(id)) == id
    ensures id < 256 ==> EncodeID(id) == [id, 0, 0, 0]
  {
    var a, b, c := id / 256, id / 65536, id / 16777216;
    assert a / 256 == b && b / 256 == c && c < 256;
    assert id == 256 * a + id % 256 && a == 256 * b + a % 256 && b == 256 * c + b % 256;
  }

  /** The blob that a blob record refers to. */
  function BlobHead(r: Record): PageID
    requires |r.bytes| == RECORD_KEY_SIZE + PAGE_ID_SIZE
  {
    DecodeID(r.bytes[RECORD_KEY_SIZE..])
  }

  /** The slot record r represents the pair rec; exactly the values that are longer than a page's maximum are blobs. */
  ghost predicate Represents(r: Record, rec: Rec, blobs: map<PageID, Blob>) {
    && |rec.key| == RECORD_KEY_SIZE && |r.bytes| >= RECORD_KEY_SIZE
    && r.bytes[..RECORD_KEY_SIZE] == rec.key && (r.isBlob <==> MAX_RECORD_SIZE < |rec.value|)
    && if r.isBlob then
         && |r.bytes| == RECORD_KEY_SIZE + PAGE_ID_SIZE && BlobHead(r) in blobs
         && blobs[BlobHead(r)].key == rec.key && blobs[BlobHead(r)].value == rec.value
       else
         r.bytes[RECORD_KEY_SIZE..] == rec.value
  }

  type Pages = map<PageID, DataPage>

  ghost predicate PagesOk(pages: Pages) {
    forall d {:trigger pages[d]} :: d in pages ==> PageOk(pages[d])
  }

  /** The records of every page. */
  ghost function AllRecords(pages: Pages): map<PageID, map<int, Record>>
    requires PagesOk(pages)
  {
    map d | d in pages :: Records(pages[d])
  }

  ghost function Flatten(recs: map<PageID, map<int, Record>>): map<RecordID, Record> {
    var ids := set d, k | d in recs && k in recs[d] :: RecordID(d, k);
    map id | id in ids :: recs[id.pageID][id.slot]
  }

  /** All live slots of all data pages. */
  ghost function Slots(pages: Pages): map<RecordID, Record>
    requires PagesOk(pages)
  {
    Flatten(AllRecords(pages))
  }

  lemma FlattenAt(recs: map<PageID, map<int, Record>>, id: RecordID)
    ensures id in Flatten(recs) <==> id.pageID in recs && id.slot in recs[id.pageID]
    ensures id in Flatten(recs) ==> Flatten(recs)[id] == recs[id.pageID][id.slot]
  {
    assert id == RecordID(id.pageID, id.slot);
  }

  lemma SlotsAt(pages: Pages, id: RecordID)
    requires PagesOk(pages)
    ensures id in Slots(pages) <==> id.pageID in pages && id.slot in Records(pages[id.pageID])
    ensures id in Slots(pages) ==> Slots(pages)[id] == Records(pages[id.pageID])[id.slot]
  {
    FlattenAt(AllRecords(pages), id);
  }

  /** One more record on a page is one more slot. */
  lemma FlattenAdd(recs: map<PageID, map<int, Record>>, d: PageID, k: int, r: Record)
    requires d in recs && k !in recs[d]
    ensures RecordID(d, k) !in Flatten(recs)
    ensures Flatten(recs[d := recs[d][k := r]]) == Flatten(recs)[RecordID(d, k) := r]
  {
    var id, recs' := RecordID(d, k), recs[d := recs[d][k := r]];
    var after, expected := Flatten(recs'), Flatten(recs)[id := r];
    FlattenAt(recs, id);
    forall x ensures (x in after <==> x in expected) && (x in after ==> after[x] == expected[x]) {
      FlattenAt(recs, x);
      FlattenAt(recs', x);
    }
  }

  /** One record less on a page is one slot less. */
  lemma FlattenDrop(recs: map<PageID, map<int, Record>>, d: PageID, k: int)
    requires d in recs && k in recs[d]
    ensures Flatten(recs[d := recs[d] - {k}]) == Flatten(recs) - {RecordID(d, k)}
  {
    var id, recs' := RecordID(d, k), recs[d := recs[d] - {k}];
    var after, expected := Flatten(recs'), Flatten(recs) - {id};
    forall x ensures (x in after <==> x in expected) && (x in after ==> after[x] == expected[x]) {
      FlattenAt(recs, x);
      FlattenAt(recs', x);
    }
  }

  lemma ReplacePage(pages: Pages, d: PageID, p': DataPage)
    requires PagesOk(pages) && PageOk(p')
    ensures PagesOk(pages[d := p']) && AllRecords(pages[d := p']) == AllRecords(pages)[d := Records(p')]
  {
  }

  /** Storing a record on a page adds one slot. */
  lemma SlotsInsert(pages: Pages, d: PageID, r: Record)
    requires PagesOk(pages) && d in pages && |r.bytes| >= 1 && Fits(pages[d], |r.bytes|)
    ensures var pages', id := pages[d := PageInsert(pages[d], r.bytes, r.isBlob)], RecordID(d, TargetSlot(pages[d]));
            PagesOk(pages') && id !in Slots(pages) && Slots(pages') == Slots(pages)[id := r]
  {
    InsertRefines(pages[d], r.bytes, r.isBlob);
    ReplacePage(pages, d, PageInsert(pages[d], r.bytes, r.isBlob));
    FlattenAdd(AllRecords(pages), d, TargetSlot(pages[d]), r);
  }

  /** Removing a record from a page takes one slot away. */
  lemma SlotsRemove(pages: Pages, id: RecordID)
    requires PagesOk(pages) && id.pageID in pages && id.slot in Records(pages[id.pageID])
    ensures var pages' := pages[id.pageID := PageRemove(pages[id.pageID], id.slot)];
            PagesOk(pages') && Slots(pages') == Slots(pages) - {id}
  {
    RemoveRefines(pages[id.pageID], id.slot);
    ReplacePage(pages, id.pageID, PageRemove(pages[id.pageID], id.slot));
    FlattenDrop(AllRecords(pages), id.pageID, id.slot);
  }

  /** A page without records has no slots. */
  lemma FlattenEmpty(recs: map<PageID, map<int, Record>>, d: PageID)
    requires d !in recs
    ensures Flatten(recs[d := map[]]) == Flatten(recs)
  {
    var after, expected := Flatten(recs[d := map[]]), Flatten(recs);
    forall x ensures (x in after <==> x in expected) && (x in after ==> after[x] == expected[x]) {
      FlattenAt(recs, x);
      FlattenAt(recs[d := map[]], x);
    }
  }

  lemma SlotsNewPage(pages: Pages, d: PageID)
    requires PagesOk(pages) && d !in pages
    ensures PagesOk(pages[d := EmptyPage(ZeroBytes())]) && Slots(pages[d := EmptyPage(ZeroBytes())]) == Slots(pages)
  {
    EmptyOk(ZeroBytes());
    ReplacePage(pages, d, EmptyPage(ZeroBytes()));
    FlattenEmpty(AllRecords(pages), d);
  }

  /** The record store as a value: live slots, stored blobs, the pairs they stand for, and who refers to each blob. */
  datatype Store = Store(slots: map<RecordID, Record>, blobs: map<PageID, Blob>,
                         records: map<RecordID, Rec>, blobRef: map<PageID, RecordID>)

  /** A record id names a live slot with that key and value, and a blob it refers to knows it. */
  ghost predicate IdOk(st: Store, id: RecordID)
    requires id in st.records && id in st.slots
  {
    && Represents(st.slots[id], st.records[id], st.blobs)
    && (st.slots[id].isBlob ==> BlobHead(st.slots[id]) in st.blobRef && st.blobRef[BlobHead(st.slots[id])] == id)
  }

  ghost predicate RefOk(st: Store, h: PageID)
    requires h in st.blobRef
  {
    && st.blobRef[h] in st.slots && st.slots[st.blobRef[h]].isBlob
    && |st.slots[st.blobRef[h]].bytes| == RECORD_KEY_SIZE + PAGE_ID_SIZE && BlobHead(st.slots[st.blobRef[h]]) == h
  }

  /** Records and live slots correspond one to one, and so do blobs and blob records. */
  ghost predicate StoreOk(st: Store) {
    && st.records.Keys == st.slots.Keys
    && (forall id {:trigger IdOk(st, id)} :: id in st.records && id in st.slots ==> IdOk(st, id))
    && st.blobRef.Keys == st.blobs.Keys
    && (forall h {:trigger RefOk(st, h)} :: h in st.blobRef ==> RefOk(st, h))
  }

  /** Adding a record, with a new blob if it is a blob record. */
  function AddTo(st: Store, id: RecordID, r: Record, rec: Rec, blobs: map<PageID, Blob>): Store
    requires r.isBlob ==> |r.bytes| == RECORD_KEY_SIZE + PAGE_ID_SIZE
  {
    Store(st.slots[id := r], blobs, st.records[id := rec], if r.isBlob then st.blobRef[BlobHead(r) := id] else st.blobRef)
  }

  lemma AddOk(st: Store, id: RecordID, r: Record, rec: Rec, blobs: map<PageID, Blob>)
    requires StoreOk(st) && id !in st.slots && Represents(r, rec, blobs)
    requires if r.isBlob then BlobHead(r) !in st.blobs && blobs.Keys == st.blobs.Keys + {BlobHead(r)} else blobs.Keys == st.blobs.Keys
    requires forall h :: h in st.blobs ==> blobs[h] == st.blobs[h]
    ensures StoreOk(AddTo(st, id, r, rec, blobs)) && id !in st.records && AddTo(st, id, r, rec, blobs).records == st.records[id := rec]
  {
    var st' := AddTo(st, id, r, rec, blobs);
    assert id !in st.records.Keys;
    forall x | x in st'.records ensures x in st'.slots && IdOk(st', x) {
      assert x in st'.records.Keys;
      assert x != id ==> x in st.records.Keys && IdOk(st, x);
    }
    forall h | h in st'.blobRef ensures RefOk(st', h) {
      assert h in st.blobRef ==> RefOk(st, h);
    }
  }

  /** The slot of a record, and the blob it may refer to. */
  lemma SlotOf(st: Store, id: RecordID)
    requires StoreOk(st) && id in st.records
    ensures id in st.slots && Represents(st.slots[id], st.records[id], st.blobs)
  {
    assert id in st.records.Keys;
    assert IdOk(st, id);
  }

  /** The blobs a slot refers to. */
  function Blobs(r: Record): set<PageID>
    requires r.isBlob ==> |r.bytes| == RECORD_KEY_SIZE + PAGE_ID_SIZE
  {
    if r.isBlob then {BlobHead(r)} else {}
  }

  /** A slot that refers to a blob refers to one of these. */
  ghost predicate RefersTo(r: Record, blobs: map<PageID, Blob>) {
    r.isBlob ==> |r.bytes| == RECORD_KEY_SIZE + PAGE_ID_SIZE && BlobHead(r) in blobs
  }

  /** Dropping a record, together with its blob if it has one. */
  function DropFrom(st: Store, id: RecordID): Store
    requires id in st.slots && (st.slots[id].isBlob ==> |st.slots[id].bytes| == RECORD_KEY_SIZE + PAGE_ID_SIZE)
  {
    var gone := Blobs(st.slots[id]);
    Store(st.slots - {id}, st.blobs - gone, st.records - {id}, st.blobRef - gone)
  }

  lemma DropOk(st: Store, id: RecordID)
    requires StoreOk(st) && id in st.records
    ensures id in st.slots && RefersTo(st.slots[id], st.blobs)
    ensures StoreOk(DropFrom(st, id)) && DropFrom(st, id).records == st.records - {id}
  {
    SlotOf(st, id);
    assert IdOk(st, id);
    var st' := DropFrom(st, id);
    assert st'.records.Keys == st'.slots.Keys && st'.blobRef.Keys == st'.blobs.Keys;
    forall x | x in st'.records && x in st'.slots ensures IdOk(st', x) {
      assert IdOk(st, x);
    }
    forall h | h in st'.blobRef ensures RefOk(st', h) {
      assert RefOk(st, h) && IdOk(st, st.blobRef[h]);
    }
  }

  /** What the page answers for a record id. */
  lemma ReadBack(pages: Pages, st: Store, key: seq<Byte>, id: RecordID)
    requires PagesOk(pages) && StoreOk(st) && st.slots == Slots(pages)
    requires id.pageID in pages && 0 <= id.slot < |pages[id.pageID].slots|
    ensures var p := pages[id.pageID];
            Live(p, id.slot) ==> 0 <= p.slots[id.slot].offset && RECORD_KEY_SIZE <= p.slots[id.slot].length
                                 && p.slots[id.slot].offset + p.slots[id.slot].length <= |p.bytes|
    ensures PageGet(pages[id.pageID], key, id.slot) ==
              if id in st.records && st.records[id].key == key
              then Some((st.slots[id].bytes[RECORD_KEY_SIZE..], st.slots[id].isBlob)) else None
    ensures id in st.records ==> id in st.slots && Represents(st.slots[id], st.records[id], st.blobs)
  {
    SlotsAt(pages, id);
    assert id in st.records.Keys <==> id in st.slots.Keys;
    if id in st.records {
      SlotOf(st, id);
    }
    GetAt(pages[id.pageID], key, id.slot);
  }

  /** The id of a stored record lies within a data page. */
  lemma Located(pages: Pages, st: Store, id: RecordID)
    requires PagesOk(pages) && StoreOk(st) && st.slots == Slots(pages) && id in st.records
    ensures id.pageID in pages && 0 <= id.slot < |pages[id.pageID].slots|
  {
    SlotsAt(pages, id);
    assert id in st.records.Keys;
    RecordsAt(pages[id.pageID], id.slot);
  }

  /** The blob pages that storing a value of this length takes. */
  function BlobPagesFor(size: nat): nat {
    if MAX_RECORD_SIZE < size then PagesFor(size) else 0
  }

  /** The length of the record stored for a value of this length. */
  function RecordSize(size: nat): nat {
    RECORD_KEY_SIZE + if MAX_RECORD_SIZE < size then PAGE_ID_SIZE else size
  }

  /** Whether a value of this length can be stored: the source compares the value, not the record, with the maximum. */
  predicate Storable(size: nat) {
    size <= MAX_RECORD_SIZE - RECORD_KEY_SIZE || MAX_RECORD_SIZE < size
  }

  /** Exactly for the storable lengths there is a page that the record fits on, a sound account that says so, and a page
      that an unused entry accounts for after it was debited. For the others the debit wraps around. */
  lemma StorableExactly(size: nat)
    ensures Storable(size) <==> exists p :: PageOk(p) && Fits(p, RecordSize(size))
    ensures Storable(size) <==> exists e, p :: PageOk(p) && Accounts(e, p) && EntryFits(e, RecordSize(size))
    ensures Storable(size) <==> exists p :: PageOk(p) && Accounts(SubFreeSpace(UNUSED_ENTRY, false, RecordSize(size)), p)
  {
    var n := RecordSize(size);
    if Storable(size) {
      var p := EmptyPage(ZeroBytes());
      EmptyOk(ZeroBytes());
      UnusedFits(n);
      var record: seq<Byte> := seq(n, _ => 0);
      ReserveAccounts(UNUSED_ENTRY, p, record, false);
      InsertOk(p, record, false);
    } else {
      forall p | PageOk(p) ensures !Fits(p, n) && forall e :: Accounts(e, p) ==> !EntryFits(e, n) {
        TooLongNeverFits(p, n);
      }
      TooLongWraps(n);
    }
  }

  /** The shortest value that is not stored properly: its record fits on no page, and the map ends up with 65535 free bytes. */
  lemma UnstorableExample()
    ensures !Storable(4062) && forall n :: 0 <= n < 4062 ==> Storable(n)
    ensures forall p :: PageOk(p) ==> !Fits(p, RecordSize(4062))
    ensures SubFreeSpace(UNUSED_ENTRY, false, RecordSize(4062)).freeSpace == 65535
  {
    StorableExactly(4062);
  }

  /** Whether storing a value of this length writes to its page only, damaged or not. */
  predicate Contained(size: nat) {
    RecordSize(size) <= PAGE_SIZE
  }

  class DataAccessor {
    const files: DataFileManager
    const blobStore: BlobStore
    /** What the files hold; its `records` are the stored pairs. */
    ghost var store: Store

    ghost predicate Valid()
      reads this, files, blobStore, blobStore.file
    {
      && files.Valid() && blobStore.Valid()
      && PagesOk(files.dataPages)
      && StoreOk(store) && store.slots == Slots(files.dataPages) && store.blobs == blobStore.blobs
    }

    constructor (files: DataFileManager, blobStore: BlobStore)
      requires files.Valid() && files.dataPages == map[] && blobStore.Valid() && blobStore.blobs == map[]
      ensures Valid() && store.records == map[] && this.files == files && this.blobStore == blobStore
    {
      this.files, this.blobStore := files, blobStore;
      store := Store(map[], map[], map[], map[]);
    }

    /** Opens the records that another object left behind in the files. */
    constructor Reopen(closed: DataAccessor, blobStore: BlobStore)
      requires closed.Valid() && blobStore.Valid() && blobStore.blobs == closed.blobStore.blobs
      ensures Valid() && store == closed.store && files == closed.files && this.blobStore == blobStore
    {
      files, this.blobStore := closed.files, blobStore;
      store := closed.store;
    }

    /** The value stored under a record id; none if the slot is free or holds another key. */
    method GetRecordValue(key: seq<Byte>, id: RecordID) returns (r: Option<seq<Byte>>)
      requires Valid() && |key| == RECORD_KEY_SIZE
      requires id.pageID in files.dataPages && 0 <= id.slot < |files.dataPages[id.pageID].slots|
      ensures r == if id in store.records && store.records[id].key == key then Some(store.records[id].value) else None
    {
      ReadBack(files.dataPages, store, key, id);
      var result := PageGet(files.dataPages[id.pageID], key, id.slot);
      if result == None {
        return None;
      }
      var (value, isBlob) := result.value;
      if isBlob {
        var first := DecodeID(value);
        blobStore.HeadRange(first);
        var blob := blobStore.GetBlob(key, first);
        return Some(blob.value);
      }
      return Some(value);
    }

    /** Stores a pair and returns the id of its record. Afterwards the free-space map is an account of the data pages
        exactly if the length of the value can be stored. */
    method InsertRecord(key: seq<Byte>, value: seq<Byte>) returns (id: RecordID)
      requires Valid() && |key| == RECORD_KEY_SIZE
      requires blobStore.file.Room() >= BlobPagesFor(|value|)
      modifies this, files, blobStore, blobStore.file
      ensures Storable(|value|) ==>
                Valid() && id !in old(store.records) && store.records == old(store.records)[id := Rec(key, value)]
      // it is on the first page with room for it, and no entry falls behind
      ensures Storable(|value|) ==>
                && FirstFit(old(files.mapPages), old(files.dataPages), id.pageID, RecordSize(|value|))
                && FallsBehind(old(files.mapPages), old(files.dataPages), files.mapPages, files.dataPages, id.pageID, 0)
      ensures !Storable(|value|) ==> !Valid() && !files.Valid()
      ensures Contained(|value|) ==>
                blobStore.Valid() && blobStore.file.Room() == old(blobStore.file.Room()) - BlobPagesFor(|value|)
    {
      var r := MakeRecord(key, value);
      id := PlaceRecord(r.bytes, r.isBlob);
      if Storable(|value|) {
        AddOk(store, id, r, Rec(key, value), blobStore.blobs);
        store := AddTo(store, id, r, Rec(key, value), blobStore.blobs);
      }
    }

    /** The record for a pair; a value too long for a page goes to the blob file first. */
    method MakeRecord(key: seq<Byte>, value: seq<Byte>) returns (r: Record)
      requires blobStore.Valid() && |key| == RECORD_KEY_SIZE && blobStore.file.Room() >= BlobPagesFor(|value|)
      modifies blobStore, blobStore.file
      ensures blobStore.Valid() && blobStore.file.Room() == old(blobStore.file.Room()) - BlobPagesFor(|value|)
      ensures |r.bytes| == RecordSize(|value|) && Represents(r, Rec(key, value), blobStore.blobs)
      ensures if r.isBlob then BlobHead(r) !in old(blobStore.blobs) && blobStore.blobs.Keys == old(blobStore.blobs).Keys + {BlobHead(r)}
              else blobStore.blobs == old(blobStore.blobs)
      ensures forall h :: h in old(blobStore.blobs) ==> blobStore.blobs[h] == old(blobStore.blobs)[h]
    {
      if MAX_RECORD_SIZE < |value| {
        var first := blobStore.InsertBlob(key, value);
        DecodeEncode(first);
        r := Record(key + EncodeID(first), true);
        assert r.bytes[RECORD_KEY_SIZE..] == EncodeID(first);
      } else {
        r := Record(key + value, false);
      }
    }

    /** Allocates a page for the record and inserts it there. No page has room for a record longer than the maximum; the
        entry debited for it accounts for no page, so that the map is broken whatever the insertion leaves on the page. */
    method PlaceRecord(record: seq<Byte>, isBlob: bool) returns (id: RecordID)
      requires files.Valid() && PagesOk(files.dataPages) && 1 <= |record| <= RECORD_SIZE_LIMIT
      modifies files
      ensures files.Valid() <==> |record| <= MAX_RECORD_SIZE
      ensures |record| <= MAX_RECORD_SIZE ==>
                && PagesOk(files.dataPages) && id !in Slots(old(files.dataPages))
                && Slots(files.dataPages) == Slots(old(files.dataPages))[id := Record(record, isBlob)]
                && FirstFit(old(files.mapPages), old(files.dataPages), id.pageID, |record|)
                && FallsBehind(old(files.mapPages), old(files.dataPages), files.mapPages, files.dataPages, id.pageID, 0)
    {
      ghost var maps, pages, next := files.mapPages, files.dataPages, files.dataNextPageID;
      var pageID := files.AllocateDataPage(|record|);
      if pageID !in pages {
        SlotsNewPage(pages, pageID);
      }
      ghost var pages' := files.dataPages;
      assert PagesOk(pages') && Slots(pages') == Slots(pages);
      id := RecordID(pageID, TargetSlot(files.dataPages[pageID]));
      if |record| <= MAX_RECORD_SIZE {
        files.StoreInserted(pageID, record, isBlob, EntryOf(maps, pageID));
        SlotsInsert(pages', pageID, Record(record, isBlob));
        StoredGaps(maps, pages, next, files.mapPages, pages', pageID, |record|, files.dataPages[pageID]);
        assert files.dataPages == pages'[pageID := files.dataPages[pageID]];
      } else {
        TooLongNeverFits(pages'[pageID], |record|);
        TooLongWraps(|record|);
        files.StoreOverlapping(pageID, |record|);
        BrokenMap(files.mapPages, files.dataPages, files.dataNextPageID, pageID);
      }
    }

    /** Removes a record and, if it refers to one, its blob. The free-space map gets all its bytes back, except for the key
        of a record that refers to a blob. */
    method RemoveRecord(id: RecordID)
      requires Valid() && id in store.records
      modifies this, files, blobStore, blobStore.file
      ensures Valid() && store.records == old(store.records) - {id}
      ensures forall d :: d in files.dataPages <==> d in old(files.dataPages)
      ensures FallsBehind(old(files.mapPages), old(files.dataPages), files.mapPages, files.dataPages, id.pageID,
                          if MAX_RECORD_SIZE < |old(store.records)[id].value| then RECORD_KEY_SIZE else 0)
      ensures blobStore.file.Room() >= old(blobStore.file.Room())
    {
      ghost var st := store;
      SlotOf(st, id);
      DropOk(st, id);
      store := DropFrom(st, id);
      Release(id, st, store);
    }

    /** Gives back what a record takes up: its slot, and the pages of its blob if it has one. */
    method Release(id: RecordID, ghost st: Store, ghost st': Store)
      requires files.Valid() && blobStore.Valid() && PagesOk(files.dataPages)
      requires st.slots == Slots(files.dataPages) && st.blobs == blobStore.blobs
      requires id in st.slots && RefersTo(st.slots[id], st.blobs) && st' == DropFrom(st, id)
      modifies files, blobStore, blobStore.file
      ensures files.Valid() && blobStore.Valid() && PagesOk(files.dataPages)
      ensures st'.slots == Slots(files.dataPages) && st'.blobs == blobStore.blobs
      ensures blobStore.file.Room() >= old(blobStore.file.Room())
      ensures forall d :: d in files.dataPages <==> d in old(files.dataPages)
      ensures FallsBehind(old(files.mapPages), old(files.dataPages), files.mapPages, files.dataPages, id.pageID,
                          if st.slots[id].isBlob then RECORD_KEY_SIZE else 0)
    {
      var r := TakeRecord(id, st.slots);
      DropBlob(r);
    }

    method DropBlob(r: Record)
      requires blobStore.Valid()
      requires RefersTo(r, blobStore.blobs)
      modifies blobStore, blobStore.file
      ensures blobStore.Valid() && blobStore.file.Room() >= old(blobStore.file.Room())
      ensures blobStore.blobs == old(blobStore.blobs) - Blobs(r)
    {
      if r.isBlob {
        blobStore.RemoveBlob(DecodeID(r.bytes[RECORD_KEY_SIZE..]));
      }
    }

    /** Takes a record off its page and credits the free-space map. */
    method TakeRecord(id: RecordID, ghost slots: map<RecordID, Record>) returns (r: Record)
      requires files.Valid() && PagesOk(files.dataPages) && slots == Slots(files.dataPages) && id in slots
      requires slots[id].isBlob ==> |slots[id].bytes| == RECORD_KEY_SIZE + PAGE_ID_SIZE
      modifies files
      ensures files.Valid() && PagesOk(files.dataPages)
      ensures r == slots[id] && Slots(files.dataPages) == slots - {id}
      ensures forall d :: d in files.dataPages <==> d in old(files.dataPages)
      ensures Credited(old(files.mapPages), files.mapPages, id.pageID, if r.isBlob then PAGE_ID_SIZE else |r.bytes|)
      ensures FallsBehind(old(files.mapPages), old(files.dataPages), files.mapPages, files.dataPages, id.pageID,
                          if r.isBlob then RECORD_KEY_SIZE else 0)
    {
      SlotsAt(files.dataPages, id);
      SlotsRemove(files.dataPages, id);
      RecordsAt(files.dataPages[id.pageID], id.slot);
      r := RecordAt(files.dataPages[id.pageID], id.slot);
      // of a blob record only the blob id is credited, not the key
      var size := if r.isBlob then PAGE_ID_SIZE else |r.bytes|;
      assert |Records(files.dataPages[id.pageID])[id.slot].bytes| - size == if r.isBlob then RECORD_KEY_SIZE else 0;
      files.RemoveAndCredit(id.pageID, id.slot, size);
    }
  }
}
