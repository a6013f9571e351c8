/**
 The buffer pool (src/buffer/buffer_pool_manager.cpp): a write-back cache of pages over the file store.
 Each public operation is one step under the pool latch; waiting on the condition variable is switched off.
 */
module BufferPool {
  import opened Basics
  import opened LruReplacer

  datatype FileType = InvalidFile | IndexFile | DataFile | FreeSpaceMapFile | BlobFile

  datatype PageKey = PageKey(fileType: FileType, pageID: PageID)

  type Data = seq<int>

  function ZeroPage(): Data {
    seq(PAGE_SIZE, _ => 0)
  }

  datatype Frame = Frame(key: PageKey, data: Data, pinCount: int, isDirty: bool)

  type Disk = map<PageKey, Data>

  const NO_FRAME: FrameID := -1

  /** The state of the pool as a value: frames, page table, free list, eviction candidates and the files. */
  datatype Pool = Pool(frames: seq<Frame>, table: map<PageKey, FrameID>, free: seq<FrameID>, cands: set<FrameID>, disk: Disk)

  /** The file store as a total map from pages to contents. */
  function DiskAt(disk: Disk, k: PageKey): Data {
    if k in disk then disk[k] else ZeroPage()
  }

  /** What a client of the pool gets to see as the contents of a page. */
  ghost function Logical(p: Pool, k: PageKey): Data {
    if k in p.table && 0 <= p.table[k] < |p.frames| then p.frames[p.table[k]].data else DiskAt(p.disk, k)
  }

  ghost predicate SameContents(p: Pool, p': Pool) {
    forall k {:trigger Logical(p', k)} :: Logical(p', k) == Logical(p, k)
  }

  /** What a page would read as if it left the pool now: it is written back only if it is marked as dirty. */
  ghost function OnceGone(p: Pool, k: PageKey): Data {
    if k in p.table && 0 <= p.table[k] < |p.frames| && p.frames[p.table[k]].isDirty then p.frames[p.table[k]].data
    else DiskAt(p.disk, k)
  }

  /** Pages in the pool read as before; a page that has left it reads as its file says, with what was marked as dirty. */
  ghost predicate ContentsBut(p: Pool, p': Pool) {
    forall k {:trigger Logical(p', k)} :: Logical(p', k) == if k in p'.table then Logical(p, k) else OnceGone(p, k)
  }

  /** How often a page is pinned; not at all if it is not resident. */
  ghost function Pins(p: Pool, k: PageKey): int {
    if k in p.table && 0 <= p.table[k] < |p.frames| then p.frames[p.table[k]].pinCount else 0
  }

  /** The pins on page k change by d, those on all other pages not at all. */
  ghost predicate PinsMove(p: Pool, p': Pool, k: PageKey, d: int) {
    forall k' {:trigger Pins(p', k')} :: Pins(p', k') == Pins(p, k') + if k' == k then d else 0
  }

  /** Every page outside frame f stays in its frame, and that frame is unchanged. */
  ghost predicate Undisturbed(p: Pool, p': Pool, f: FrameID) {
    && |p'.frames| == |p.frames|
    && forall k {:trigger k in p'.table} {:trigger k in p.table} ::
         k in p.table && p.table[k] != f && 0 <= p.table[k] < |p.frames| ==>
           k in p'.table && p'.table[k] == p.table[k] && p'.frames[p.table[k]] == p.frames[p.table[k]]
  }

  /** No page but k has come in or changed its frame. */
  ghost predicate OnlyEnters(p: Pool, p': Pool, k: PageKey) {
    forall k' {:trigger k' in p'.table} :: k' in p'.table && k' != k ==> k' in p.table && p'.table[k'] == p.table[k']
  }

  /** Every pinned page but k stays in its frame, and that frame is unchanged, pins included. */
  ghost predicate PinnedStay(p: Pool, p': Pool, k: PageKey) {
    && |p'.frames| == |p.frames|
    && forall k' {:trigger k' in p'.table} {:trigger Pins(p, k')} ::
         k' != k && Pins(p, k') > 0 ==>
           && k' in p.table && 0 <= p.table[k'] < |p.frames|
           && k' in p'.table && p'.table[k'] == p.table[k'] && p'.frames[p.table[k']] == p.frames[p.table[k']]
  }

  /** Page k got one more pin, in frame f: the pins of all other pages and the frames of all pinned pages are as before, as
      are all pages outside f. Frame f is not idle any more; the others have been idle for as long as before. */
  ghost predicate Entered(p: Pool, since: map<FrameID, nat>, p': Pool, since': map<FrameID, nat>, k: PageKey, f: FrameID) {
    && PinsMove(p, p', k, 1) && PinnedStay(p, p', k) && Undisturbed(p, p', f) && OnlyEnters(p, p', k)
    && k in p'.table && p'.table[k] == f && (k in p.table ==> p.table[k] == f)
    && since' == since - {f}
  }

  /** Frame f is in exactly one place: on the free list, a candidate for eviction (resident, unpinned), or pinned. */
  ghost predicate FrameOk(p: Pool, f: FrameID)
    requires 0 <= f < |p.frames|
  {
    if f in p.free then
      p.frames[f].pinCount == 0 && !p.frames[f].isDirty && f !in p.cands
    else
      && p.frames[f].key in p.table && p.table[p.frames[f].key] == f
      && 0 <= p.frames[f].pinCount && (p.frames[f].pinCount == 0 <==> f in p.cands)
  }

  ghost predicate EntryOk(p: Pool, k: PageKey)
    requires k in p.table
  {
    0 <= p.table[k] < |p.frames| && p.table[k] !in p.free && p.frames[p.table[k]].key == k
  }

  /** The bookkeeping is consistent, apart from a frame that has just been taken for a new page. */
  ghost predicate PoolOk(p: Pool, taken: FrameID) {
    && (forall f {:trigger FrameOk(p, f)} :: 0 <= f < |p.frames| && f != taken ==> FrameOk(p, f))
    && (forall k {:trigger EntryOk(p, k)} :: k in p.table ==> EntryOk(p, k) && p.table[k] != taken)
    && (forall i :: 0 <= i < |p.free| ==> 0 <= p.free[i] < |p.frames|)
    && (forall i, j :: 0 <= i < j < |p.free| ==> p.free[i] != p.free[j])
    && (forall f :: f in p.cands ==> 0 <= f < |p.frames|)
    && (0 <= taken < |p.frames| ==>
          && taken !in p.free && taken !in p.cands
          && p.frames[taken].pinCount == 0 && !p.frames[taken].isDirty)
  }

  /** The same frames, except that some may have become clean. */
  ghost predicate FramesBut(frames: seq<Frame>, frames': seq<Frame>) {
    |frames'| == |frames| && forall f {:trigger frames'[f]} :: 0 <= f < |frames| ==> frames'[f] == frames[f].(isDirty := frames'[f].isDirty)
  }

  /** Only the page whose current unpinned period began first may leave the pool. */
  ghost predicate EvictsOldest(p: Pool, p': Pool, since: map<FrameID, nat>) {
    forall k {:trigger k in p'.table} :: k in p.table && k !in p'.table ==>
      p.table[k] in since && forall f :: f in since ==> since[p.table[k]] <= since[f]
  }

  /** The frame for another page: the first free one, or else the one that has been idle for the longest time. */
  ghost predicate MayTake(p: Pool, since: map<FrameID, nat>, f: FrameID) {
    if p.free != [] then f == p.free[0] else f in since && forall g :: g in since ==> since[f] <= since[g]
  }

  ghost predicate AllPinned(p: Pool) {
    forall f :: 0 <= f < |p.frames| ==> p.frames[f].pinCount > 0
  }

  // ---------- The steps ----------

  lemma TakeFree(p: Pool)
    requires PoolOk(p, NO_FRAME) && p.free != []
    ensures PoolOk(p.(free := p.free[1..]), p.free[0]) && SameContents(p, p.(free := p.free[1..]))
    ensures 0 <= p.free[0] < |p.frames| && p.free[0] !in p.cands
    ensures forall k :: k in p.table ==> p.table[k] != p.free[0]
  {
    var p' := p.(free := p.free[1..]);
    assert FrameOk(p, p.free[0]);
    forall f | 0 <= f < |p'.frames| && f != p.free[0] ensures FrameOk(p', f) {
      assert FrameOk(p, f);
      assert p.free == [p.free[0]] + p.free[1..];
    }
    forall k | k in p'.table ensures EntryOk(p', k) && p'.table[k] != p.free[0] {
      assert EntryOk(p, k);
    }
  }

  /** Dropping an unpinned page from the pool, after writing it back if it was dirty. */
  function Evict(p: Pool, f: FrameID): Pool
    requires 0 <= f < |p.frames|
  {
    var fr := p.frames[f];
    p.(frames := p.frames[f := fr.(isDirty := false)], table := p.table - {fr.key}, cands := p.cands - {f},
       disk := if fr.isDirty then p.disk[fr.key := fr.data] else p.disk)
  }

  lemma EvictOk(p: Pool, f: FrameID)
    requires PoolOk(p, NO_FRAME) && f in p.cands
    ensures 0 <= f < |p.frames| && PoolOk(Evict(p, f), f) && ContentsBut(p, Evict(p, f))
    ensures Undisturbed(p, Evict(p, f), f) && forall k :: Pins(Evict(p, f), k) == Pins(p, k)
    ensures p.frames[f].pinCount == 0 && p.frames[f].key in p.table && p.table[p.frames[f].key] == f
    ensures forall k :: k in p.table && k != p.frames[f].key ==> p.table[k] != f
  {
    assert FrameOk(p, f);
    var p' := Evict(p, f);
    forall g | 0 <= g < |p'.frames| && g != f ensures FrameOk(p', g) {
      assert FrameOk(p, g);
    }
    forall k | k in p'.table ensures EntryOk(p', k) && p'.table[k] != f {
      assert EntryOk(p, k);
    }
    forall k
      ensures Logical(p', k) == (if k in p'.table then Logical(p, k) else OnceGone(p, k)) && Pins(p', k) == Pins(p, k)
    {
      assert k in p.table ==> EntryOk(p, k);
    }
    forall k | k in p.table && k != p.frames[f].key ensures p.table[k] != f {
      assert EntryOk(p, k);
    }
  }

  /** An eviction keeps what all pages hold exactly if the page is marked as dirty or agrees with its file anyway. */
  lemma EvictKeepsExactly(p: Pool, f: FrameID)
    requires PoolOk(p, NO_FRAME) && f in p.cands
    ensures 0 <= f < |p.frames|
    ensures SameContents(p, Evict(p, f)) <==> p.frames[f].isDirty || p.frames[f].data == DiskAt(p.disk, p.frames[f].key)
  {
    EvictOk(p, f);
    var k := p.frames[f].key;
    assert Logical(Evict(p, f), k) == OnceGone(p, k);
    forall k' | k' != k ensures Logical(Evict(p, f), k') == Logical(p, k') {
    }
  }

  /** The pool once frame f has been taken for another page. */
  function Taken(p: Pool, f: FrameID): Pool
    requires 0 <= f < |p.frames|
  {
    if p.free != [] then p.(free := p.free[1..]) else Evict(p, f)
  }

  /** Frame f is free for a page now; it held no pinned page, and the pages in other frames have not moved. */
  ghost predicate Vacated(p: Pool, q: Pool, f: FrameID) {
    && PoolOk(q, f) && ContentsBut(p, q) && Undisturbed(p, q, f) && f !in q.cands
    && (forall k {:trigger Pins(q, k)} :: Pins(q, k) == Pins(p, k))
    && (forall k {:trigger k in q.table} :: k in q.table ==> k in p.table && q.table[k] == p.table[k] != f)
    && (forall k {:trigger k in p.table} :: k in p.table && p.table[k] == f ==> Pins(p, k) == 0)
  }

  lemma TakenOk(p: Pool, since: map<FrameID, nat>, f: FrameID)
    requires PoolOk(p, NO_FRAME) && since.Keys == p.cands && MayTake(p, since, f)
    ensures 0 <= f < |p.frames| && p.frames[f].pinCount == 0 && (p.free != [] ==> f !in since)
    ensures Vacated(p, Taken(p, f), f) && EvictsOldest(p, Taken(p, f), since)
    ensures p.free == [] ==> f in p.cands
  {
    if p.free != [] {
      TakeFree(p);
      assert FrameOk(p, f) && (f in since.Keys <==> f in p.cands);
    } else {
      assert f in since.Keys;
      EvictOk(p, f);
      EvictTable(p, f);
    }
  }

  lemma EvictTable(p: Pool, f: FrameID)
    requires PoolOk(p, NO_FRAME) && f in p.cands
    ensures 0 <= f < |p.frames| && forall k :: k in Evict(p, f).table <==> k in p.table && p.table[k] != f
  {
    EvictOk(p, f);
  }

  /** Putting a page into a frame that was taken for it. */
  function Install(p: Pool, f: FrameID, k: PageKey, data: Data, disk: Disk): Pool
    requires 0 <= f < |p.frames|
  {
    p.(frames := p.frames[f := Frame(k, data, 1, false)], table := p.table[k := f], disk := disk)
  }

  lemma InstallOk(p: Pool, f: FrameID, k: PageKey, data: Data, disk: Disk)
    requires PoolOk(p, f) && 0 <= f < |p.frames| && k !in p.table
    requires data == DiskAt(disk, k) && forall k' :: k' != k ==> DiskAt(disk, k') == DiskAt(p.disk, k')
    ensures var p' := Install(p, f, k, data, disk);
            PoolOk(p', NO_FRAME) && forall k' :: Logical(p', k') == if k' == k then data else Logical(p, k')
    ensures PinsMove(p, Install(p, f, k, data, disk), k, 1)
  {
    var p' := Install(p, f, k, data, disk);
    forall g | 0 <= g < |p'.frames| ensures FrameOk(p', g) {
      if g != f {
        assert FrameOk(p, g);
        assert g !in p.free ==> EntryOk(p, p.frames[g].key);
      }
    }
    forall k' | k' in p'.table ensures EntryOk(p', k') {
      if k' != k {
        assert EntryOk(p, k');
      }
    }
    forall k'
      ensures Logical(p', k') == if k' == k then data else Logical(p, k')
      ensures Pins(p', k') == Pins(p, k') + if k' == k then 1 else 0
    {
      assert k' in p.table ==> EntryOk(p, k');
    }
  }

  /** A page went to frame f, which held no pinned page: nothing else has moved. */
  lemma InstallStays(p: Pool, since: map<FrameID, nat>, q: Pool, f: FrameID, k: PageKey, data: Data, disk: Disk)
    requires Vacated(p, q, f) && 0 <= f < |q.frames| && (k in p.table ==> p.table[k] == f)
    requires data == DiskAt(disk, k) && forall k' :: k' != k ==> DiskAt(disk, k') == DiskAt(q.disk, k')
    ensures k !in q.table && Entered(p, since, Install(q, f, k, data, disk), since - {f}, k, f)
  {
    InstallOk(q, f, k, data, disk);
    var p' := Install(q, f, k, data, disk);
    forall k' ensures Pins(p', k') == Pins(p, k') + if k' == k then 1 else 0 {
      assert Pins(p', k') == Pins(q, k') + if k' == k then 1 else 0;
    }
  }

  /** Taking a frame and putting page k there, seen from outside. */
  lemma InstallContents(p: Pool, q: Pool, f: FrameID, k: PageKey, data: Data, disk: Disk)
    requires ContentsBut(p, q) && PoolOk(q, f) && 0 <= f < |q.frames| && k !in q.table
    requires data == DiskAt(disk, k) && forall k' :: k' != k ==> DiskAt(disk, k') == DiskAt(q.disk, k')
    ensures var p' := Install(q, f, k, data, disk);
            forall k' {:trigger Logical(p', k')} :: Logical(p', k') ==
              if k' == k then data else if k' in p'.table then Logical(p, k') else OnceGone(p, k')
    ensures disk == q.disk && k !in p.table ==> ContentsBut(p, Install(q, f, k, data, disk))
  {
    InstallOk(q, f, k, data, disk);
    var p' := Install(q, f, k, data, disk);
    forall k'
      ensures Logical(p', k') == if k' == k then data else if k' in p'.table then Logical(p, k') else OnceGone(p, k')
    {
      assert k' != k ==> Logical(p', k') == Logical(q, k');
    }
    assert Logical(q, k) == OnceGone(p, k);
  }

  /** Replacing a resident frame's data, counters and flags without moving any page. */
  function Touch(p: Pool, f: FrameID, fr: Frame, cands: set<FrameID>, disk: Disk): Pool
    requires 0 <= f < |p.frames|
  {
    p.(frames := p.frames[f := fr], cands := cands, disk := disk)
  }

  lemma TouchOk(p: Pool, f: FrameID, fr: Frame, cands: set<FrameID>, disk: Disk)
    requires PoolOk(p, NO_FRAME) && 0 <= f < |p.frames| && f !in p.free && fr.key == p.frames[f].key
    requires forall g :: g != f ==> (g in cands <==> g in p.cands)
    requires forall k :: k != fr.key ==> DiskAt(disk, k) == DiskAt(p.disk, k)
    requires 0 <= fr.pinCount && (fr.pinCount == 0 <==> f in cands)
    ensures var p' := Touch(p, f, fr, cands, disk);
            PoolOk(p', NO_FRAME) && forall k :: Logical(p', k) == if k == fr.key then fr.data else Logical(p, k)
    ensures var p' := Touch(p, f, fr, cands, disk);
            PinsMove(p, p', fr.key, fr.pinCount - p.frames[f].pinCount) && Undisturbed(p, p', f) && PinnedStay(p, p', fr.key)
  {
    var p' := Touch(p, f, fr, cands, disk);
    assert FrameOk(p, f);
    forall g | 0 <= g < |p'.frames| ensures FrameOk(p', g) {
      assert FrameOk(p, g);
    }
    forall k | k in p'.table ensures EntryOk(p', k) {
      assert EntryOk(p, k);
    }
    forall k
      ensures Logical(p', k) == if k == fr.key then fr.data else Logical(p, k)
      ensures Pins(p', k) == Pins(p, k) + if k == fr.key then fr.pinCount - p.frames[f].pinCount else 0
      ensures k in p.table && k != fr.key ==> p.table[k] != f
    {
      assert k in p.table ==> EntryOk(p, k);
    }
  }

  /** The pool after one more pin on a resident page. */
  function PinnedMore(p: Pool, k: PageKey): Pool
    requires k in p.table && 0 <= p.table[k] < |p.frames|
  {
    var f := p.table[k];
    Touch(p, f, p.frames[f].(pinCount := p.frames[f].pinCount + 1), p.cands - {f}, p.disk)
  }

  lemma PinnedMoreOk(p: Pool, since: map<FrameID, nat>, k: PageKey)
    requires PoolOk(p, NO_FRAME) && k in p.table
    ensures 0 <= p.table[k] < |p.frames| && p.frames[p.table[k]].key == k && p.frames[p.table[k]].pinCount >= 0
    ensures p.frames[p.table[k]].pinCount == 0 <==> p.table[k] in p.cands
    ensures PoolOk(PinnedMore(p, k), NO_FRAME) && SameContents(p, PinnedMore(p, k))
    ensures Entered(p, since, PinnedMore(p, k), since - {p.table[k]}, k, p.table[k])
  {
    var f := p.table[k];
    assert EntryOk(p, k) && FrameOk(p, f);
    TouchOk(p, f, p.frames[f].(pinCount := p.frames[f].pinCount + 1), p.cands - {f}, p.disk);
  }

  /** The pool after page k was fetched into frame f. */
  function Fetched(p: Pool, k: PageKey, f: FrameID): Pool
    requires 0 <= f < |p.frames|
  {
    if k in p.table && 0 <= p.table[k] < |p.frames| then PinnedMore(p, k)
    else Install(Taken(p, f), f, k, DiskAt(Taken(p, f).disk, k), Taken(p, f).disk)
  }

  /** The pool after page k was appended in frame f. */
  function Appended(p: Pool, k: PageKey, f: FrameID): Pool
    requires 0 <= f < |p.frames|
  {
    Install(Taken(p, f), f, k, ZeroPage(), Taken(p, f).disk[k := ZeroPage()])
  }

  /** Putting a page into a second frame while it stays in its own breaks the pool. */
  lemma AppendedTwice(p: Pool, q: Pool, f: FrameID, k: PageKey, disk: Disk)
    requires PoolOk(p, NO_FRAME) && k in p.table && p.table[k] != f && Undisturbed(p, q, f) && 0 <= f < |q.frames|
    requires forall g :: g in q.free ==> g in p.free
    ensures !PoolOk(Install(q, f, k, ZeroPage(), disk), NO_FRAME)
  {
    assert EntryOk(p, k);
    var p', g := Install(q, f, k, ZeroPage(), disk), p.table[k];
    assert p'.frames[g].key == k && g !in p'.free && p'.table[k] == f;
    assert !FrameOk(p', g);
  }

  /** The pool after one pin on page k was dropped, with or without reporting a change. */
  function Unpinned(p: Pool, k: PageKey, isDirty: bool): Pool {
    if k !in p.table || !(0 <= p.table[k] < |p.frames|) then p
    else
      var f := p.table[k];
      var fr := p.frames[f].(isDirty := p.frames[f].isDirty || isDirty);
      if fr.pinCount <= 0 then p.(frames := p.frames[f := fr])
      else p.(frames := p.frames[f := fr.(pinCount := fr.pinCount - 1)],
              cands := if fr.pinCount == 1 then p.cands + {f} else p.cands)
  }

  lemma UnpinnedOk(p: Pool, k: PageKey, isDirty: bool)
    requires PoolOk(p, NO_FRAME)
    ensures PoolOk(Unpinned(p, k, isDirty), NO_FRAME) && SameContents(p, Unpinned(p, k, isDirty))
    ensures k in p.table ==> 0 <= p.table[k] < |p.frames| && (Pins(p, k) == 0 <==> p.table[k] in p.cands) && Pins(p, k) >= 0
    ensures PinsMove(p, Unpinned(p, k, isDirty), k, if Pins(p, k) > 0 then -1 else 0)
    ensures PinnedStay(p, Unpinned(p, k, isDirty), k)
  {
    if k in p.table {
      assert EntryOk(p, k) && FrameOk(p, p.table[k]);
      var p' := Unpinned(p, k, isDirty);
      TouchOk(p, p.table[k], p'.frames[p.table[k]], p'.cands, p.disk);
    }
  }

  /** The pool after page k was written to its file. */
  function Flushed(p: Pool, k: PageKey): Pool {
    if k !in p.table || !(0 <= p.table[k] < |p.frames|) then p
    else Touch(p, p.table[k], p.frames[p.table[k]].(isDirty := false), p.cands, p.disk[k := p.frames[p.table[k]].data])
  }

  /** The pool after a client changed the bytes in frame f. */
  function Written(p: Pool, f: FrameID, data: Data): Pool
    requires 0 <= f < |p.frames|
  {
    Touch(p, f, p.frames[f].(data := data), p.cands, p.disk)
  }

  class BufferPool {
    const frames: array<Frame>
    const replacer: LruReplacer
    var pageTable: map<PageKey, FrameID>
    var freeList: seq<FrameID>
    var disk: Disk

    ghost function Snapshot(): Pool
      reads this, frames, replacer
    {
      Pool(frames[..], pageTable, freeList, replacer.Candidates(), disk)
    }

    ghost predicate Valid()
      reads this, frames, replacer
    {
      replacer.Valid() && PoolOk(Snapshot(), NO_FRAME)
    }

    ghost function Contents(k: PageKey): Data
      reads this, frames, replacer
    {
      Logical(Snapshot(), k)
    }

    ghost function PinCount(k: PageKey): int
      reads this, frames
    {
      if k in pageTable && 0 <= pageTable[k] < frames.Length then frames[pageTable[k]].pinCount else 0
    }

    constructor (poolSize: nat, disk: Disk)
      ensures Valid() && fresh(frames) && fresh(replacer) && frames.Length == poolSize
      ensures forall k :: Contents(k) == DiskAt(disk, k)
      ensures pageTable == map[] && replacer.Candidates() == {} && this.disk == disk
    {
      frames := new Frame[poolSize](_ => Frame(PageKey(InvalidFile, INVALID_PAGE_ID), ZeroPage(), 0, false));
      replacer := new LruReplacer();
      pageTable := map[];
      freeList := seq(poolSize, i => i);
      this.disk := disk;
      new;
      forall f | 0 <= f < frames.Length ensures FrameOk(Snapshot(), f) {
        assert freeList[f] == f;
      }
    }

    function FetchExistentPage(k: PageKey): Option<FrameID>
      reads this
    {
      if k in pageTable then Some(pageTable[k]) else None
    }

    /** A frame for another page: a free one if there is one, else the one unpinned for the longest time. */
    method GetVictimPage() returns (r: Option<FrameID>)
      requires Valid()
      modifies this, frames, replacer
      ensures replacer.Valid()
      ensures r == None <==> AllPinned(old(Snapshot()))
      ensures r == None ==> Snapshot() == old(Snapshot()) && replacer.since == old(replacer.since)
      ensures r.Some? ==>
                && MayTake(old(Snapshot()), old(replacer.since), r.value) && 0 <= r.value < frames.Length
                && Snapshot() == Taken(old(Snapshot()), r.value) && replacer.since == old(replacer.since) - {r.value}
                && Vacated(old(Snapshot()), Snapshot(), r.value)
      ensures r.Some? && old(freeList) != [] ==> pageTable == old(pageTable)
      ensures EvictsOldest(old(Snapshot()), Snapshot(), old(replacer.since))
    {
      ghost var p, since := Snapshot(), replacer.since;
      if freeList != [] {
        r := Some(freeList[0]);
        TakenOk(p, since, freeList[0]);
        freeList := freeList[1..];
        return;
      }
      var found, f := replacer.Victim();
      if found {
        TakenOk(p, since, f);
        EvictFrame(f);
        return Some(f);
      }
      assert Snapshot() == p;
      forall g | 0 <= g < |p.frames| ensures p.frames[g].pinCount > 0 {
        assert FrameOk(p, g);
      }
      return None;
    }

    /** Takes a frame's page out of the page table and writes it back if it is marked as dirty. */
    method EvictFrame(f: FrameID)
      requires 0 <= f < frames.Length
      modifies this, frames
      ensures pageTable == old(pageTable) - {old(frames[f]).key} && freeList == old(freeList)
      ensures frames[..] == old(frames[..])[f := old(frames[f]).(isDirty := false)]
      ensures disk == if old(frames[f]).isDirty then old(disk)[old(frames[f]).key := old(frames[f]).data] else old(disk)
    {
      var fr := frames[f];
      pageTable := pageTable - {fr.key};
      if fr.isDirty {
        disk := disk[fr.key := fr.data];
      }
      frames[f] := fr.(isDirty := false);
    }

    /** Pins a page, reading it in if it is not resident. None stands for the null pointer. */
    method FetchPage(k: PageKey) returns (r: Option<FrameID>)
      requires Valid()
      modifies this, frames, replacer
      ensures Valid() && ContentsBut(old(Snapshot()), Snapshot())
      ensures r == None <==> k !in old(pageTable) && AllPinned(old(Snapshot()))
      ensures r == None ==> Snapshot() == old(Snapshot()) && replacer.since == old(replacer.since)
      ensures r.Some? ==> Holds(r.value, k) && Snapshot() == Fetched(old(Snapshot()), k, r.value)
      ensures r.Some? ==> Entered(old(Snapshot()), old(replacer.since), Snapshot(), replacer.since, k, r.value)
      ensures k in old(pageTable) ==> pageTable == old(pageTable)
      ensures r.Some? && k !in old(pageTable) ==> MayTake(old(Snapshot()), old(replacer.since), r.value)
      ensures EvictsOldest(old(Snapshot()), Snapshot(), old(replacer.since))
    {
      r := FetchExistentPage(k);
      if r.Some? {
        assert EntryOk(Snapshot(), k);
        PinResident(k);
      } else {
        r := LoadPage(k);
      }
    }

    /** Reads a page that is not resident into a frame and pins it. */
    method LoadPage(k: PageKey) returns (r: Option<FrameID>)
      requires Valid() && k !in pageTable
      modifies this, frames, replacer
      ensures Valid() && ContentsBut(old(Snapshot()), Snapshot())
      ensures r == None <==> AllPinned(old(Snapshot()))
      ensures r == None ==> Snapshot() == old(Snapshot()) && replacer.since == old(replacer.since)
      ensures r.Some? ==> Holds(r.value, k) && Snapshot() == Fetched(old(Snapshot()), k, r.value)
      ensures r.Some? ==> Entered(old(Snapshot()), old(replacer.since), Snapshot(), replacer.since, k, r.value)
      ensures r.Some? ==> MayTake(old(Snapshot()), old(replacer.since), r.value)
      ensures EvictsOldest(old(Snapshot()), Snapshot(), old(replacer.since))
    {
      r := GetVictimPage();
      if r == None {
        return;
      }
      var f := r.value;
      ghost var q := Snapshot();
      pageTable := pageTable[k := f];
      frames[f] := Frame(k, DiskAt(disk, k), frames[f].pinCount + 1, frames[f].isDirty);
      InstallOk(q, f, k, DiskAt(disk, k), disk);
      InstallContents(old(Snapshot()), q, f, k, DiskAt(disk, k), disk);
      InstallStays(old(Snapshot()), old(replacer.since), q, f, k, DiskAt(disk, k), disk);
      assert Snapshot() == Install(q, f, k, DiskAt(disk, k), disk);
    }

    /** Takes one more pin on a resident page. */
    method PinResident(k: PageKey)
      requires Valid() && k in pageTable
      modifies frames, replacer
      ensures Valid() && SameContents(old(Snapshot()), Snapshot())
      ensures Holds(pageTable[k], k) && Snapshot() == PinnedMore(old(Snapshot()), k)
      ensures frames[..] == old(frames[..])[pageTable[k] := old(frames[pageTable[k]]).(pinCount := old(frames[pageTable[k]]).pinCount + 1)]
      ensures Entered(old(Snapshot()), old(replacer.since), Snapshot(), replacer.since, k, pageTable[k])
    {
      ghost var p := Snapshot();
      PinnedMoreOk(p, replacer.since, k);
      var f := pageTable[k];
      if frames[f].pinCount == 0 {
        replacer.Pin(f);
      }
      frames[f] := frames[f].(pinCount := frames[f].pinCount + 1);
      assert replacer.Candidates() == p.cands - {f};
      assert replacer.since == old(replacer.since) - {f};
      assert Snapshot() == PinnedMore(p, k);
    }

    /** Frame f is pinned and holds page k with its current contents. */
    ghost predicate Holds(f: FrameID, k: PageKey)
      reads this, frames, replacer
    {
      && k in pageTable && pageTable[k] == f && 0 <= f < frames.Length
      && frames[f].key == k && frames[f].pinCount > 0 && frames[f].data == Contents(k)
    }

    /** A client changes the bytes of a resident page. */
    method WriteFrame(f: FrameID, data: Data)
      requires Valid() && 0 <= f < frames.Length && f !in freeList
      modifies frames
      ensures Valid()
      ensures frames[..] == old(frames[..])[f := old(frames[f]).(data := data)] && Snapshot() == Written(old(Snapshot()), f, data)
      ensures forall k :: PinCount(k) == old(PinCount(k))
      ensures forall k :: Contents(k) == if k == old(frames[f].key) then data else old(Contents(k))
    {
      ghost var p := Snapshot();
      assert FrameOk(p, f);
      frames[f] := frames[f].(data := data);
      TouchOk(p, f, frames[f], p.cands, disk);
      assert Snapshot() == Written(p, f, data);
    }

    /** Drops one pin. A report of a change is remembered; a change that nobody reports is not. */
    method UnpinPage(k: PageKey, isDirty: bool) returns (ok: bool)
      requires Valid()
      modifies this, frames, replacer
      ensures Valid() && SameContents(old(Snapshot()), Snapshot())
      ensures ok <==> k !in old(pageTable) || old(PinCount(k)) > 0
      ensures Snapshot() == Unpinned(old(Snapshot()), k, isDirty)
      ensures PinsMove(old(Snapshot()), Snapshot(), k, if old(PinCount(k)) > 0 then -1 else 0)
      ensures PinnedStay(old(Snapshot()), Snapshot(), k)
      // with the last pin the page becomes idle, later than all pages that are idle already
      ensures old(PinCount(k)) != 1 ==> replacer.since == old(replacer.since)
      ensures old(PinCount(k)) == 1 ==>
                && pageTable[k] !in old(replacer.since) && pageTable[k] in replacer.since
                && replacer.since == old(replacer.since)[pageTable[k] := replacer.since[pageTable[k]]]
                && forall f :: f in old(replacer.since) ==> replacer.since[f] < replacer.since[pageTable[k]]
    {
      ghost var p := Snapshot();
      UnpinnedOk(p, k, isDirty);
      var existent := FetchExistentPage(k);
      if existent == None {
        return true;
      }
      var f := existent.value;
      var fr := frames[f];
      if isDirty {
        fr := fr.(isDirty := true);
      }
      ok := fr.pinCount > 0;
      if ok {
        fr := fr.(pinCount := fr.pinCount - 1);
        if fr.pinCount == 0 {
          replacer.Unpin(f);
        }
      }
      frames[f] := fr;
      assert Snapshot() == Unpinned(p, k, isDirty);
    }

    /** Writes a resident page to its file, whether it is dirty or not. */
    method FlushPage(k: PageKey) returns (ok: bool)
      requires Valid()
      modifies this, frames
      ensures Valid() && SameContents(old(Snapshot()), Snapshot()) && pageTable == old(pageTable)
      ensures ok <==> k in pageTable
      ensures FramesBut(old(frames[..]), frames[..]) && forall k' :: PinCount(k') == old(PinCount(k'))
      ensures forall f :: 0 <= f < frames.Length ==>
                (frames[f].isDirty <==> old(frames[f].isDirty) && !(k in pageTable && f == pageTable[k]))
      ensures Snapshot() == Flushed(old(Snapshot()), k)
      ensures DiskAt(disk, k) == Contents(k) && forall k' :: k' != k ==> DiskAt(disk, k') == DiskAt(old(disk), k')
    {
      ghost var p := Snapshot();
      var existent := FetchExistentPage(k);
      if existent == None {
        return false;
      }
      var f := existent.value;
      assert EntryOk(p, k) && FrameOk(p, f);
      disk := disk[k := frames[f].data];
      frames[f] := frames[f].(isDirty := false);
      TouchOk(p, f, frames[f], p.cands, disk);
      assert Snapshot() == Touch(p, f, frames[f], p.cands, disk);
      return true;
    }

    /** Writes every resident page to its file; afterwards the files alone hold the contents. */
    method FlushAllPages()
      requires Valid()
      modifies this, frames
      ensures Valid() && SameContents(old(Snapshot()), Snapshot()) && pageTable == old(pageTable)
      ensures forall k :: DiskAt(disk, k) == Contents(k)
      ensures FramesBut(old(frames[..]), frames[..]) && forall k :: PinCount(k) == old(PinCount(k))
      ensures forall k :: k in pageTable ==> 0 <= pageTable[k] < frames.Length && !frames[pageTable[k]].isDirty
    {
      var todo := pageTable.Keys;
      while todo != {}
        invariant Valid() && SameContents(old(Snapshot()), Snapshot())
        invariant pageTable == old(pageTable) && todo <= pageTable.Keys
        invariant forall k :: k !in todo ==> DiskAt(disk, k) == Contents(k)
        invariant FramesBut(old(frames[..]), frames[..]) && forall k :: PinCount(k) == old(PinCount(k))
        invariant forall k {:trigger pageTable[k]} :: k in pageTable && k !in todo ==>
                    0 <= pageTable[k] < frames.Length && !frames[pageTable[k]].isDirty
        decreases todo
      {
        ghost var p := Snapshot();
        var k :| k in todo;
        assert EntryOk(p, k);
        var _ := FlushPage(k);
        todo := todo - {k};
        assert SameContents(p, Snapshot());
      }
    }

    /** Adds a page, filled with zeros in the pool and in its file. The source does not check that the page is not resident:
        the pool stays consistent exactly if it was not, or its frame is the one that was taken. */
    method AppendNewPage(k: PageKey) returns (r: Option<FrameID>)
      requires Valid()
      modifies this, frames, replacer
      ensures r == None <==> AllPinned(old(Snapshot()))
      ensures r == None ==> Snapshot() == old(Snapshot()) && replacer.since == old(replacer.since) && Valid()
      ensures r.Some? ==> 0 <= r.value < frames.Length && Snapshot() == Appended(old(Snapshot()), k, r.value)
      ensures r.Some? ==> MayTake(old(Snapshot()), old(replacer.since), r.value) && replacer.since == old(replacer.since) - {r.value}
      ensures r.Some? ==> (Valid() <==> k !in old(pageTable) || old(pageTable)[k] == r.value)
      ensures r.Some? && Valid() ==>
                && Holds(r.value, k) && frames[r.value].pinCount == 1
                && Entered(old(Snapshot()), old(replacer.since), Snapshot(), replacer.since, k, r.value)
                && (forall k' :: Contents(k') == if k' == k then ZeroPage()
                                                 else if k' in pageTable then old(Contents(k')) else OnceGone(old(Snapshot()), k'))
      ensures Valid() ==> EvictsOldest(old(Snapshot()), Snapshot(), old(replacer.since))
      ensures r.Some? ==> DiskAt(disk, k) == ZeroPage()
    {
      r := GetVictimPage();
      if r == None {
        return;
      }
      var f := r.value;
      ghost var q := Snapshot();
      pageTable := pageTable[k := f];
      frames[f] := Frame(k, ZeroPage(), frames[f].pinCount + 1, frames[f].isDirty);
      disk := disk[k := ZeroPage()];
      assert Snapshot() == Install(q, f, k, ZeroPage(), disk);
      if k in old(pageTable) && old(pageTable)[k] != f {
        AppendedTwice(old(Snapshot()), q, f, k, disk);
      } else {
        InstallOk(q, f, k, ZeroPage(), disk);
        InstallContents(old(Snapshot()), q, f, k, ZeroPage(), disk);
        InstallStays(old(Snapshot()), old(replacer.since), q, f, k, ZeroPage(), disk);
      }
    }
  }
}
