/** Values too long for a data page, kept as chains of blob pages (src/data_accessor.cpp, src/page/blob_file_page.cpp). */
module BlobStore {
  import opened Basics
  import opened PageFile
  import opened SlottedPage

  /** A blob page; only a head page carries the key. */
  datatype BlobPage = BlobPage(isHead: bool, next: PageID, blobID: int, key: seq<Byte>, data: seq<Byte>)

  /** The header that every blob page starts with takes 24 bytes. */
  const BLOB_HEADER_SIZE: nat := 24
  const HEAD_CAPACITY: nat := PAGE_SIZE - BLOB_HEADER_SIZE - RECORD_KEY_SIZE
  const BODY_CAPACITY: nat := PAGE_SIZE - BLOB_HEADER_SIZE

  const INVALID_BLOB_ID: int := 0xFFFF_FFFF_FFFF_FFFF

  const BLANK_BLOB_PAGE: BlobPage := BlobPage(false, INVALID_PAGE_ID, INVALID_BLOB_ID, [], [])

  /** A stored value: its key, its bytes and its pages in order. */
  datatype Blob = Blob(key: seq<Byte>, value: seq<Byte>, chain: seq<PageID>)

  type BlobPages = map<PageID, BlobPage>

  /** How many pages a value takes. */
  function PagesFor(size: nat): nat {
    if size <= HEAD_CAPACITY then 1 else 1 + (size - HEAD_CAPACITY + BODY_CAPACITY - 1) / BODY_CAPACITY
  }

  /** The data of these pages, one after the other. */
  ghost function Concat(used: BlobPages, chain: seq<PageID>): seq<Byte> {
    if chain == [] then []
    else Concat(used, chain[..|chain| - 1])
         + if chain[|chain| - 1] in used then used[chain[|chain| - 1]].data else []
  }

  /** The pages of a chain: linked in order, marked with one blob id, the first and only the first as a head. */
  ghost predicate LinkedPage(used: BlobPages, chain: seq<PageID>, i: nat, id: int, headMarked: bool)
    requires i < |chain|
  {
    && chain[i] in used && chain[i] != INVALID_PAGE_ID
    && used[chain[i]].next == EntryAt(chain, i + 1)
    && used[chain[i]].blobID == id
    && (used[chain[i]].isHead <==> headMarked && i == 0)
  }

  ghost predicate Linked(used: BlobPages, chain: seq<PageID>, id: int, headMarked: bool) {
    && (forall i {:trigger LinkedPage(used, chain, i, id, headMarked)} :: 0 <= i < |chain| ==> LinkedPage(used, chain, i, id, headMarked))
    && (forall i, j :: 0 <= i < j < |chain| ==> chain[i] != chain[j])
  }

  /** The bytes that n pages can take. */
  function Capacity(n: nat): nat {
    if n == 0 then 0 else HEAD_CAPACITY + (n - 1) * BODY_CAPACITY
  }

  /** The bytes that page i of a chain can take. */
  function PageRoom(i: nat): nat {
    if i == 0 then HEAD_CAPACITY else BODY_CAPACITY
  }

  /** Page i of the chain holds the next bytes of the value, as many as it has room for. */
  ghost predicate FilledPage(used: BlobPages, chain: seq<PageID>, value: seq<Byte>, i: nat)
    requires i < |chain|
  {
    && chain[i] in used && Capacity(i) < |value|
    && used[chain[i]].data == value[Capacity(i)..if |value| <= Capacity(i) + PageRoom(i) then |value| else Capacity(i) + PageRoom(i)]
  }

  ghost predicate Filled(used: BlobPages, chain: seq<PageID>, value: seq<Byte>) {
    forall i {:trigger FilledPage(used, chain, value, i)} :: 0 <= i < |chain| ==> FilledPage(used, chain, value, i)
  }

  ghost predicate BlobOk(used: BlobPages, b: Blob) {
    && b.chain != [] && b.chain[0] in used
    && Linked(used, b.chain, used[b.chain[0]].blobID, true)
    && used[b.chain[0]].key == b.key
    && Concat(used, b.chain) == b.value && Filled(used, b.chain, b.value)
  }

  ghost predicate OwnsChain(chain: seq<PageID>, owner: map<PageID, PageID>, h: PageID) {
    forall i {:trigger chain[i]} :: 0 <= i < |chain| ==> chain[i] in owner && owner[chain[i]] == h
  }

  ghost predicate OwnedBy(blobs: map<PageID, Blob>, owner: map<PageID, PageID>, p: PageID)
    requires p in owner
  {
    owner[p] in blobs && p in blobs[owner[p]].chain
  }

  /** Every one of these pages belongs to exactly one stored blob. */
  ghost predicate OwnersOk(pages: set<PageID>, blobs: map<PageID, Blob>, owner: map<PageID, PageID>) {
    && owner.Keys == pages
    && (forall h {:trigger OwnsChain(blobs[h].chain, owner, h)} :: h in blobs ==> OwnsChain(blobs[h].chain, owner, h))
    && (forall p {:trigger OwnedBy(blobs, owner, p)} :: p in owner ==> OwnedBy(blobs, owner, p))
  }

  ghost predicate BlobsOk(used: BlobPages, blobs: map<PageID, Blob>, owner: map<PageID, PageID>) {
    && (forall h {:trigger BlobOk(used, blobs[h])} :: h in blobs ==> BlobOk(used, blobs[h]) && blobs[h].chain[0] == h)
    && OwnersOk(used.Keys, blobs, owner)
  }

  /** The data of a chain depends on nothing but the chain's pages. */
  lemma {:induction false} ConcatSame(used: BlobPages, used': BlobPages, chain: seq<PageID>)
    requires forall i :: 0 <= i < |chain| ==> chain[i] in used && chain[i] in used' && used[chain[i]].data == used'[chain[i]].data
    ensures Concat(used, chain) == Concat(used', chain)
  {
    if chain != [] {
      ConcatSame(used, used', chain[..|chain| - 1]);
    }
  }

  lemma ConcatSnoc(used: BlobPages, chain: seq<PageID>, p: PageID)
    requires p in used
    ensures Concat(used, chain + [p]) == Concat(used, chain) + used[p].data
  {
    assert (chain + [p])[..|chain|] == chain;
  }

  lemma FilledSame(used: BlobPages, used': BlobPages, chain: seq<PageID>, value: seq<Byte>)
    requires Filled(used, chain, value)
    requires forall i :: 0 <= i < |chain| ==> chain[i] in used && chain[i] in used' && used[chain[i]].data == used'[chain[i]].data
    ensures Filled(used', chain, value)
  {
    forall i | 0 <= i < |chain| ensures FilledPage(used', chain, value, i) {
      assert FilledPage(used, chain, value, i);
    }
  }

  /** A blob reads the same as long as its own pages are left alone. */
  lemma BlobSame(used: BlobPages, used': BlobPages, b: Blob)
    requires BlobOk(used, b)
    requires forall i :: 0 <= i < |b.chain| ==> b.chain[i] in used && b.chain[i] in used' && used'[b.chain[i]] == used[b.chain[i]]
    ensures BlobOk(used', b)
  {
    assert LinkedPage(used, b.chain, 0, used[b.chain[0]].blobID, true);
    var id := used[b.chain[0]].blobID;
    forall i | 0 <= i < |b.chain| ensures LinkedPage(used', b.chain, i, id, true) && b.chain[i] in used {
      assert LinkedPage(used, b.chain, i, id, true);
    }
    ConcatSame(used, used', b.chain);
    FilledSame(used, used', b.chain, b.value);
  }

  /** The pages after p was appended to the chain. */
  function Extended(used: BlobPages, chain: seq<PageID>, p: PageID, page: BlobPage): BlobPages
    requires chain != [] ==> chain[|chain| - 1] in used
  {
    if chain == [] then used[p := page]
    else used[p := page][chain[|chain| - 1] := used[chain[|chain| - 1]].(next := p)]
  }

  lemma ChainInUse(used: BlobPages, chain: seq<PageID>, id: int, headMarked: bool)
    requires Linked(used, chain, id, headMarked)
    ensures forall i {:trigger chain[i]} :: 0 <= i < |chain| ==> chain[i] in used && used[chain[i]].blobID == id
  {
    forall i | 0 <= i < |chain| ensures chain[i] in used && used[chain[i]].blobID == id {
      assert LinkedPage(used, chain, i, id, headMarked);
    }
  }

  lemma ExtendLinked(used: BlobPages, chain: seq<PageID>, id: int, p: PageID, page: BlobPage)
    requires Linked(used, chain, id, false) && p !in used && p != INVALID_PAGE_ID
    requires page.next == INVALID_PAGE_ID && page.blobID == id && !page.isHead
    ensures chain != [] ==> chain[|chain| - 1] in used
    ensures Linked(Extended(used, chain, p, page), chain + [p], id, false)
  {
    ChainInUse(used, chain, id, false);
    var chain', n := chain + [p], |chain|;
    var used' := Extended(used, chain, p, page);
    forall i | 0 <= i < |chain'| ensures LinkedPage(used', chain', i, id, false) {
      if i < n {
        assert LinkedPage(used, chain, i, id, false);
      }
    }
  }

  lemma ExtendConcat(used: BlobPages, chain: seq<PageID>, id: int, p: PageID, page: BlobPage)
    requires Linked(used, chain, id, false) && p !in used
    ensures chain != [] ==> chain[|chain| - 1] in used
    ensures Concat(Extended(used, chain, p, page), chain + [p]) == Concat(used, chain) + page.data
  {
    ChainInUse(used, chain, id, false);
    var used' := Extended(used, chain, p, page);
    ConcatSnoc(used', chain, p);
    ConcatSame(used, used', chain);
  }

  /** What the pages written so far hold does not change when more is written behind it. */
  lemma ExtendFilled(used: BlobPages, chain: seq<PageID>, id: int, written: seq<Byte>, p: PageID, page: BlobPage)
    requires Linked(used, chain, id, false) && p !in used && Filled(used, chain, written)
    requires |written| == Capacity(|chain|) && 1 <= |page.data| <= PageRoom(|chain|)
    ensures chain != [] ==> chain[|chain| - 1] in used
    ensures Filled(Extended(used, chain, p, page), chain + [p], written + page.data)
  {
    ChainInUse(used, chain, id, false);
    var used', chain', written' := Extended(used, chain, p, page), chain + [p], written + page.data;
    forall i | 0 <= i < |chain'| ensures FilledPage(used', chain', written', i) {
      if i < |chain| {
        assert FilledPage(used, chain, written, i);
        assert Capacity(i) + PageRoom(i) <= Capacity(|chain|);
      } else {
        assert used'[p].data == page.data == written'[|written|..];
      }
    }
  }

  /** The pages of the chain are new; the pages that were there before are as before. */
  ghost predicate Grown(used: BlobPages, used': BlobPages, chain: seq<PageID>) {
    && (forall p :: p in used' <==> p in used || p in chain)
    && (forall p :: p in used ==> p !in chain && used'[p] == used[p])
  }

  /** A chain under construction: `written` is what its pages hold so far. */
  ghost predicate Building(used0: BlobPages, used: BlobPages, chain: seq<PageID>, id: int, key: seq<Byte>, written: seq<Byte>) {
    && Linked(used, chain, id, false) && Concat(used, chain) == written && Filled(used, chain, written)
    && Grown(used0, used, chain)
    && (chain != [] ==> chain[0] in used && used[chain[0]].key == key)
  }

  /** Appending a page appends its data. */
  lemma BuildStep(used0: BlobPages, used: BlobPages, chain: seq<PageID>, id: int, key: seq<Byte>, written: seq<Byte>,
                  p: PageID, page: BlobPage)
    requires Building(used0, used, chain, id, key, written) && p !in used && p != INVALID_PAGE_ID
    requires page.next == INVALID_PAGE_ID && page.blobID == id && !page.isHead && (chain == [] ==> page.key == key)
    requires |written| == Capacity(|chain|) && 1 <= |page.data| <= PageRoom(|chain|)
    ensures chain != [] ==> chain[|chain| - 1] in used
    ensures Building(used0, Extended(used, chain, p, page), chain + [p], id, key, written + page.data)
  {
    ExtendLinked(used, chain, id, p, page);
    ExtendConcat(used, chain, id, p, page);
    ExtendFilled(used, chain, id, written, p, page);
    ChainInUse(used, chain, id, false);
    ExtendGrown(used0, used, chain, p, page);
  }

  lemma ExtendGrown(used0: BlobPages, used: BlobPages, chain: seq<PageID>, p: PageID, page: BlobPage)
    requires Grown(used0, used, chain) && p !in used && forall i :: 0 <= i < |chain| ==> chain[i] in used
    ensures Grown(used0, Extended(used, chain, p, page), chain + [p])
  {
    var used' := Extended(used, chain, p, page);
    if chain != [] {
      assert chain[|chain| - 1] in chain;
    }
    forall q ensures q in used' <==> q in used0 || q in chain + [p] {
    }
  }

  lemma SliceStep(s: seq<Byte>, a: nat, b: nat)
    requires a <= b <= |s|
    ensures s[..b] == s[..a] + s[a..b]
  {
  }

  ghost function PagesOf(chain: seq<PageID>): set<PageID> {
    set p | p in chain
  }

  function Own(owner: map<PageID, PageID>, chain: seq<PageID>, h: PageID): map<PageID, PageID> {
    owner + map p | p in chain :: h
  }

  lemma OwnAt(owner: map<PageID, PageID>, chain: seq<PageID>, h: PageID, q: PageID)
    ensures q in Own(owner, chain, h) <==> q in owner || q in chain
    ensures q in chain ==> Own(owner, chain, h)[q] == h
    ensures q in owner && q !in chain ==> Own(owner, chain, h)[q] == owner[q]
  {
  }

  /** Marking the first page as the head turns a chain under construction into a blob. */
  lemma MarkHead(used: BlobPages, id: int, b: Blob)
    requires Linked(used, b.chain, id, false) && b.chain != []
    requires Concat(used, b.chain) == b.value && Filled(used, b.chain, b.value)
    requires b.chain[0] in used && used[b.chain[0]].key == b.key
    ensures BlobOk(used[b.chain[0] := used[b.chain[0]].(isHead := true)], b)
  {
    ChainInUse(used, b.chain, id, false);
    var used' := used[b.chain[0] := used[b.chain[0]].(isHead := true)];
    forall i | 0 <= i < |b.chain| ensures LinkedPage(used', b.chain, i, id, true) {
      assert LinkedPage(used, b.chain, i, id, false);
    }
    ConcatSame(used, used', b.chain);
    FilledSame(used, used', b.chain, b.value);
  }

  /** The pages of a stored blob are in use and owned by it. */
  lemma ChainOwned(used: BlobPages, blobs: map<PageID, Blob>, owner: map<PageID, PageID>, h: PageID)
    requires BlobsOk(used, blobs, owner) && h in blobs
    ensures BlobOk(used, blobs[h]) && blobs[h].chain[0] == h && h in used
    ensures forall p {:trigger p in blobs[h].chain} {:trigger owner[p]} :: p in blobs[h].chain <==> p in owner && owner[p] == h
    ensures forall p :: p in owner <==> p in used
  {
    assert OwnersOk(used.Keys, blobs, owner);
    assert BlobOk(used, blobs[h]);
    assert OwnsChain(blobs[h].chain, owner, h);
    forall p ensures p in owner <==> p in used {
      assert p in owner.Keys <==> p in used.Keys;
    }
    forall p | p in owner && owner[p] == h ensures p in blobs[h].chain {
      assert OwnedBy(blobs, owner, p);
    }
  }

  /** No page of a stored blob holds more than it has room for, none is empty, and all but the last are full. */
  lemma PagesFilled(used: BlobPages, blobs: map<PageID, Blob>, owner: map<PageID, PageID>, h: PageID, i: nat)
    requires BlobsOk(used, blobs, owner) && h in blobs && i < |blobs[h].chain|
    ensures var chain := blobs[h].chain;
            && chain[i] in used && 1 <= |used[chain[i]].data| <= (if i == 0 then HEAD_CAPACITY else BODY_CAPACITY)
            && (i + 1 < |chain| ==> |used[chain[i]].data| == if i == 0 then HEAD_CAPACITY else BODY_CAPACITY)
  {
    var b := blobs[h];
    assert BlobOk(used, b);
    assert FilledPage(used, b.chain, b.value, i);
    assert i + 1 < |b.chain| ==> FilledPage(used, b.chain, b.value, i + 1);
  }

  /** The pages marked as heads are exactly the first pages of the stored blobs. */
  lemma HeadsOnly(used: BlobPages, blobs: map<PageID, Blob>, owner: map<PageID, PageID>, p: PageID)
    requires BlobsOk(used, blobs, owner)
    ensures p in blobs <==> p in used && used[p].isHead
    ensures p in blobs ==> used[p].key == blobs[p].key
  {
    if p in blobs {
      ChainOwned(used, blobs, owner, p);
      assert LinkedPage(used, blobs[p].chain, 0, used[p].blobID, true);
    } else if p in used {
      assert OwnersOk(used.Keys, blobs, owner);
      assert p in owner && OwnedBy(blobs, owner, p);
      var h := owner[p];
      ChainOwned(used, blobs, owner, h);
      var i :| 0 <= i < |blobs[h].chain| && blobs[h].chain[i] == p;
      assert LinkedPage(used, blobs[h].chain, i, used[h].blobID, true);
    }
  }

  /** A stored blob does not notice changes to pages it does not own. */
  lemma OthersSame(used0: BlobPages, used: BlobPages, blobs: map<PageID, Blob>, owner: map<PageID, PageID>, h: PageID)
    requires BlobsOk(used0, blobs, owner) && h in blobs
    requires forall p :: p in used0 && p in owner && owner[p] == h ==> p in used && used[p] == used0[p]
    ensures BlobOk(used, blobs[h]) && blobs[h].chain[0] == h
  {
    ChainOwned(used0, blobs, owner, h);
    forall i | 0 <= i < |blobs[h].chain|
      ensures var p := blobs[h].chain[i]; p in used0 && p in used && used[p] == used0[p]
    {
      assert blobs[h].chain[i] in blobs[h].chain;
    }
    BlobSame(used0, used, blobs[h]);
  }

  lemma BuildOwners(pages: set<PageID>, blobs: map<PageID, Blob>, owner: map<PageID, PageID>, b: Blob, pages': set<PageID>)
    requires OwnersOk(pages, blobs, owner) && b.chain != [] && b.chain[0] !in blobs
    requires forall p :: p in pages' <==> p in pages || p in b.chain
    requires forall p :: p in b.chain ==> p !in pages
    ensures OwnersOk(pages', blobs[b.chain[0] := b], Own(owner, b.chain, b.chain[0]))
  {
    var first := b.chain[0];
    var blobs', owner' := blobs[first := b], Own(owner, b.chain, first);
    forall h | h in blobs' ensures OwnsChain(blobs'[h].chain, owner', h) {
      assert h != first ==> OwnsChain(blobs[h].chain, owner, h);
      forall i | 0 <= i < |blobs'[h].chain| ensures blobs'[h].chain[i] in owner' && owner'[blobs'[h].chain[i]] == h {
        OwnAt(owner, b.chain, first, blobs'[h].chain[i]);
        assert h == first ==> blobs'[h].chain[i] in b.chain;
      }
    }
    forall p ensures p in owner'.Keys <==> p in pages' {
      OwnAt(owner, b.chain, first, p);
      assert p in owner.Keys <==> p in pages;
    }
    forall p | p in owner' ensures OwnedBy(blobs', owner', p) {
      OwnAt(owner, b.chain, first, p);
      assert p !in b.chain ==> OwnedBy(blobs, owner, p);
    }
  }

  /** A finished chain, once its first page is marked as the head, is one more stored blob. */
  lemma BuildDone(used0: BlobPages, used: BlobPages, id: int, b: Blob, blobs: map<PageID, Blob>, owner: map<PageID, PageID>)
    requires BlobsOk(used0, blobs, owner) && Building(used0, used, b.chain, id, b.key, b.value) && b.chain != []
    ensures var first := b.chain[0];
            && first in used && used[first].blobID == id && first !in used0 && first !in blobs
            && BlobsOk(used[first := used[first].(isHead := true)], blobs[first := b], Own(owner, b.chain, first))
            && Filled(used[first := used[first].(isHead := true)], b.chain, b.value)
  {
    var first := b.chain[0];
    var used' := used[first := used[first].(isHead := true)];
    assert first in b.chain;
    ChainInUse(used, b.chain, id, false);
    MarkHead(used, id, b);
    forall h | h in blobs ensures BlobOk(used', blobs[h]) && blobs[h].chain[0] == h && h != first {
      OthersSame(used0, used', blobs, owner, h);
      ChainOwned(used0, blobs, owner, h);
    }
    BuildOwners(used0.Keys, blobs, owner, b, used'.Keys);
  }

  /** Without the pages of one blob, the other blobs are still there. */
  lemma RemoveDone(used: BlobPages, h: PageID, blobs: map<PageID, Blob>, owner: map<PageID, PageID>)
    requires BlobsOk(used, blobs, owner) && h in blobs
    ensures var gone := PagesOf(blobs[h].chain); BlobsOk(used - gone, blobs - {h}, owner - gone)
  {
    var gone := PagesOf(blobs[h].chain);
    var used', blobs', owner' := used - gone, blobs - {h}, owner - gone;
    ChainOwned(used, blobs, owner, h);
    assert OwnersOk(used.Keys, blobs, owner);
    forall g | g in blobs' ensures BlobOk(used', blobs'[g]) && blobs'[g].chain[0] == g {
      OthersSame(used, used', blobs, owner, g);
    }
    forall g | g in blobs' ensures OwnsChain(blobs'[g].chain, owner', g) {
      assert OwnsChain(blobs[g].chain, owner, g);
    }
    forall p | p in owner' ensures OwnedBy(blobs', owner', p) {
      assert OwnedBy(blobs, owner, p);
    }
  }

  lemma PagesForExact(size: nat, n: nat)
    requires n >= 1 && Capacity(n - 1) < size <= Capacity(n)
    ensures PagesFor(size) == n
  {
  }

  /** How much of a value is written once n pages are filled. */
  function Reached(total: nat, n: nat): nat {
    if Capacity(n) < total then Capacity(n) else total
  }

  /** Filling one more page of a chain of n. */
  lemma PieceStep(total: nat, n: nat)
    requires Reached(total, n) < total
    ensures Capacity(n) < total
    ensures var room := PageRoom(n);
            var rest := total - Reached(total, n);
            Reached(total, n) < Reached(total, n + 1) == Reached(total, n) + if rest < room then rest else room
  {
  }

  lemma MorePagesNeeded(size: nat, n: nat)
    requires Capacity(n) < size
    ensures PagesFor(size) > n
  {
  }

  /** What reading a blob comes to; the file store throws an exception when a page is beyond the end of its file. */
  datatype BlobResult = Value(value: seq<Byte>) | NoValue | ReadError

  class BlobStore {
    const file: PageFile<BlobPage>
    var nextBlobID: int
    ghost var blobs: map<PageID, Blob>
    ghost var owner: map<PageID, PageID>

    ghost predicate Valid()
      reads this, file
    {
      file.Valid() && BlobsOk(file.used, blobs, owner)
    }

    constructor (file: PageFile<BlobPage>)
      requires file.Valid() && file.used == map[]
      ensures Valid() && blobs == map[] && this.file == file
    {
      this.file := file;
      nextBlobID, blobs, owner := 0, map[], map[];
    }

    /** Opens the blobs that another object left behind in the file. The id counter starts from 0 again, so that blobs may
        share an id; nothing depends on ids being different. */
    constructor Reopen(closed: BlobStore)
      requires closed.Valid()
      ensures Valid() && blobs == closed.blobs && file == closed.file
    {
      file := closed.file;
      nextBlobID, blobs, owner := 0, closed.blobs, closed.owner;
    }

    /** Stores a value in a new chain of pages. */
    method InsertBlob(key: seq<Byte>, value: seq<Byte>) returns (first: PageID)
      requires Valid() && |value| >= 1 && file.Room() >= PagesFor(|value|)
      modifies this, file
      ensures Valid() && first !in old(blobs) && first in blobs
      ensures blobs == old(blobs)[first := Blob(key, value, blobs[first].chain)]
      ensures |blobs[first].chain| == PagesFor(|value|) && file.Room() == old(file.Room()) - PagesFor(|value|)
      // page after page is filled up, and only the last one may have room left
      ensures Filled(file.used, blobs[first].chain, value)
      ensures nextBlobID == old(nextBlobID) + 1 && first in file.used && file.used[first].blobID == nextBlobID
      ensures 0 < first < INVALID_PAGE_ID
    {
      nextBlobID := nextBlobID + 1;
      ghost var chain;
      first, chain := WriteChain(nextBlobID, key, value);
      ghost var b := Blob(key, value, chain);
      BuildDone(old(file.used), file.used, nextBlobID, b, blobs, owner);
      file.WriteBack(file.used[first := file.used[first].(isHead := true)]);
      blobs := blobs[first := b];
      owner := Own(owner, chain, first);
    }

    /** Writes a value to a chain of new pages, none of them marked as a head yet. */
    method WriteChain(id: int, key: seq<Byte>, value: seq<Byte>) returns (first: PageID, ghost chain: seq<PageID>)
      requires file.Valid() && |value| >= 1 && file.Room() >= PagesFor(|value|)
      modifies file
      ensures file.Valid() && file.Room() == old(file.Room()) - |chain|
      ensures Building(old(file.used), file.used, chain, id, key, value)
      ensures chain != [] && first == chain[0] && |chain| == PagesFor(|value|)
    {
      var insertedSize, prev := 0, INVALID_PAGE_ID;
      first, chain := INVALID_PAGE_ID, [];
      ghost var written := [];
      while insertedSize < |value|
        invariant file.Valid() && file.Room() == old(file.Room()) - |chain|
        invariant 0 <= insertedSize <= |value|
        invariant Building(old(file.used), file.used, chain, id, key, written) && written == value[..insertedSize]
        invariant if chain == [] then prev == INVALID_PAGE_ID
                  else first == chain[0] && prev == chain[|chain| - 1] != INVALID_PAGE_ID
        invariant insertedSize == Reached(|value|, |chain|) && (chain != [] ==> Capacity(|chain| - 1) < |value|)
        decreases |value| - insertedSize
      {
        ghost var n := |chain|;
        PieceStep(|value|, n);
        MorePagesNeeded(|value|, |chain|);
        var capacity := if prev == INVALID_PAGE_ID then HEAD_CAPACITY else BODY_CAPACITY;
        var rest := |value| - insertedSize;
        var sizeToInsert := if rest < capacity then rest else capacity;
        var piece := value[insertedSize..insertedSize + sizeToInsert];
        var p := AppendPage(prev, BlobPage(false, INVALID_PAGE_ID, id, if prev == INVALID_PAGE_ID then key else [], piece),
                            old(file.used), chain, key, written);
        if prev == INVALID_PAGE_ID {
          first := p;
        }
        SliceStep(value, insertedSize, insertedSize + sizeToInsert);
        chain, written := chain + [p], written + piece;
        insertedSize := insertedSize + sizeToInsert;
        prev := p;
      }
      PagesForExact(|value|, |chain|);
      assert value[..|value|] == value;
    }

    /** Takes a new page, fills it, and links the previous page of the chain to it. */
    method AppendPage(prev: PageID, page: BlobPage,
                      ghost used0: BlobPages, ghost chain: seq<PageID>, ghost key: seq<Byte>, ghost written: seq<Byte>)
      returns (p: PageID)
      requires file.Valid() && file.Room() >= 1 && Building(used0, file.used, chain, page.blobID, key, written)
      requires if chain == [] then prev == INVALID_PAGE_ID else prev == chain[|chain| - 1] != INVALID_PAGE_ID
      requires page.next == INVALID_PAGE_ID && !page.isHead && (chain == [] ==> page.key == key)
      requires |written| == Capacity(|chain|) && 1 <= |page.data| <= PageRoom(|chain|)
      modifies file
      ensures file.Valid() && file.Room() == old(file.Room()) - 1 && p != INVALID_PAGE_ID
      ensures Building(used0, file.used, chain + [p], page.blobID, key, written + page.data)
    {
      p := file.New(BLANK_BLOB_PAGE);
      BuildStep(used0, old(file.used), chain, page.blobID, key, written, p, page);
      var pages := file.used[p := page];
      if prev != INVALID_PAGE_ID {
        pages := pages[prev := pages[prev].(next := p)];
      }
      assert pages == Extended(old(file.used), chain, p, page);
      file.WriteBack(pages);
    }

    /** Reads a value back. There is none if the id is that of a free page or of a page that is not a head, or if the head
        page carries another key. Page 0 is the header of the file, not a blob page. */
    method GetBlob(key: seq<Byte>, first: PageID) returns (r: BlobResult)
      requires Valid() && 1 <= first <= INVALID_PAGE_ID
      ensures r == if first in blobs && blobs[first].key == key then Value(blobs[first].value)
                   else if first == INVALID_PAGE_ID then Value([])
                   else if first < file.nextPageID then NoValue else ReadError
    {
      HeadsOnly(file.used, blobs, owner, first);
      if first == INVALID_PAGE_ID {
        return Value([]);
      }
      if first >= file.nextPageID {
        return ReadError;
      }
      if first in file.free {
        return NoValue;
      }
      ghost var b := ChainFrom(first);
      var nextBlobPageID, isHeadPage, blobID, blob := first, true, INVALID_BLOB_ID, [];
      ghost var i := 0;
      while nextBlobPageID != INVALID_PAGE_ID
        invariant i <= |b.chain| && nextBlobPageID == EntryAt(b.chain, i) && (isHeadPage <==> i == 0)
        invariant i > 0 ==> first in blobs && blobID == file.used[first].blobID && b.key == key
        invariant blob == Concat(file.used, b.chain[..i])
        decreases |b.chain| - i
      {
        assert first in blobs ==> LinkedPage(file.used, b.chain, i, file.used[first].blobID, true);
        // a page in use never carries the free mark
        var page := file.used[nextBlobPageID];
        if isHeadPage {
          isHeadPage := false;
          if !page.isHead || page.key != key {
            return NoValue;
          }
          blobID := page.blobID;
        } else if page.isHead || page.blobID != blobID {
          return NoValue;
        }
        ConcatSnoc(file.used, b.chain[..i], nextBlobPageID);
        assert b.chain[..i + 1] == b.chain[..i] + [nextBlobPageID];
        blob := blob + page.data;
        nextBlobPageID := page.next;
        i := i + 1;
      }
      assert b.chain[..i] == b.chain;
      return Value(blob);
    }

    /** Blobs start at pages in use. */
    lemma HeadRange(h: PageID)
      requires Valid() && h in blobs
      ensures 1 <= h < file.nextPageID <= INVALID_PAGE_ID
    {
      HeadsOnly(file.used, blobs, owner, h);
    }

    /** The blob that starts at a page in use; a page that is no head stands alone. */
    ghost method ChainFrom(first: PageID) returns (b: Blob)
      requires Valid() && first in file.used && (first in blobs <==> file.used[first].isHead)
      ensures b.chain != [] && b.chain[0] == first != INVALID_PAGE_ID
      ensures forall i :: 0 <= i < |b.chain| ==> b.chain[i] in file.used && b.chain[i] != INVALID_PAGE_ID
      ensures first in blobs ==>
                && b == blobs[first] && Concat(file.used, b.chain) == b.value
                && forall i {:trigger LinkedPage(file.used, b.chain, i, file.used[first].blobID, true)} ::
                     0 <= i < |b.chain| ==> LinkedPage(file.used, b.chain, i, file.used[first].blobID, true)
    {
      if first in blobs {
        b := blobs[first];
        ChainOwned(file.used, blobs, owner, first);
        forall i | 0 <= i < |b.chain| ensures b.chain[i] in file.used && b.chain[i] != INVALID_PAGE_ID {
          assert LinkedPage(file.used, b.chain, i, file.used[first].blobID, true);
        }
      } else {
        b := Blob([], [], [first]);
      }
    }

    /** Gives the pages of a stored value back to the file. */
    method RemoveBlob(first: PageID)
      requires Valid() && first in blobs
      modifies this, file
      ensures Valid() && blobs == old(blobs) - {first}
      ensures file.Room() == old(file.Room()) + |old(blobs)[first].chain|
      ensures file.used == old(file.used) - PagesOf(old(blobs)[first].chain)
    {
      ChainOwned(file.used, blobs, owner, first);
      ghost var b, used0 := blobs[first], file.used;
      ghost var id := used0[first].blobID;
      var nextBlobPageID := first;
      ghost var i, gone := 0, {};
      while nextBlobPageID != INVALID_PAGE_ID
        invariant file.Valid() && i <= |b.chain| && nextBlobPageID == EntryAt(b.chain, i)
        invariant file.used == used0 - gone
        invariant forall p {:trigger p in gone} :: p in gone <==> exists j :: 0 <= j < i && b.chain[j] == p
        invariant file.Room() == old(file.Room()) + i
        invariant blobs == old(blobs) && owner == old(owner)
        decreases |b.chain| - i
      {
        assert LinkedPage(used0, b.chain, i, id, true);
        var thisBlobPageID := nextBlobPageID;
        nextBlobPageID := file.used[nextBlobPageID].next;
        var _ := file.Delete(thisBlobPageID, true);
        gone, i := gone + {thisBlobPageID}, i + 1;
      }
      assert i < |b.chain| ==> LinkedPage(used0, b.chain, i, id, true);
      assert gone == PagesOf(b.chain) by {
        forall p ensures p in gone <==> p in b.chain {
        }
      }
      RemoveDone(used0, first, blobs, owner);
      blobs := blobs - {first};
      owner := owner - PagesOf(b.chain);
    }
  }
}
