/**
 A page file with an intrusive free list: the index file (src/file_manager/index_file_manager.cpp) and the
 blob file (src/file_manager/data_file_manager.cpp) both recycle deleted pages this way.
 Pages that carry the free mark are kept apart from pages in use.
 */
module PageFile {
  import opened Basics

  /** How many pages a file can hold: the file store computes the offset of a page in 32 bits. */
  const PAGE_LIMIT: PageID := 0x10_0000

  /** Where a page starts in its file. */
  function PageOffset(id: PageID): int {
    id * PAGE_SIZE % 0x1_0000_0000
  }

  /** Two pages share their place in the file exactly if their ids differ by a multiple of the limit. */
  lemma OffsetsCollideExactly(a: PageID, b: PageID)
    requires a >= 0 && b >= 0
    ensures PageOffset(a) == PageOffset(b) <==> a % PAGE_LIMIT == b % PAGE_LIMIT
  {
    OffsetOf(a);
    OffsetOf(b);
  }

  lemma OffsetOf(a: PageID)
    requires a >= 0
    ensures PageOffset(a) == a % PAGE_LIMIT * PAGE_SIZE
  {
    var q, r := a / PAGE_LIMIT, a % PAGE_LIMIT;
    assert a * PAGE_SIZE == q * 0x1_0000_0000 + r * PAGE_SIZE;
  }

  /** The links of the free pages form exactly this list, starting at head. */
  ghost predicate FreeChain(free: map<PageID, PageID>, head: PageID, list: seq<PageID>) {
    && (forall i, j :: 0 <= i < j < |list| ==> list[i] != list[j])
    && (forall i :: 0 <= i < |list| ==> list[i] in free && list[i] != INVALID_PAGE_ID)
    && (forall i {:trigger free[list[i]]} :: 0 <= i < |list| ==> free[list[i]] == EntryAt(list, i + 1))
    && (forall p {:trigger p in list} :: p in free ==> p in list)
    && head == EntryAt(list, 0)
  }

  function EntryAt(list: seq<PageID>, i: nat): PageID {
    if i < |list| then list[i] else INVALID_PAGE_ID
  }

  lemma PushFree(free: map<PageID, PageID>, head: PageID, list: seq<PageID>, p: PageID)
    requires FreeChain(free, head, list) && p !in free && p != INVALID_PAGE_ID
    ensures FreeChain(free[p := head], p, [p] + list)
  {
    var list', free' := [p] + list, free[p := head];
    forall i | 0 <= i < |list'| ensures list'[i] in free' && free'[list'[i]] == EntryAt(list', i + 1) {
      if i > 0 {
        var q := list[i - 1];
        assert list'[i] == q && free[q] == EntryAt(list, i);
      }
    }
    forall q | q in free' ensures q in list' {
      assert q == p || q in list;
    }
    assert forall i :: 0 <= i < |list| ==> list[i] != p;
  }

  lemma PopFree(free: map<PageID, PageID>, head: PageID, list: seq<PageID>)
    requires FreeChain(free, head, list) && head != INVALID_PAGE_ID
    ensures list != [] && head in free && head == list[0]
    ensures FreeChain(free - {head}, free[head], list[1..])
  {
    var list', free' := list[1..], free - {head};
    assert free[head] == EntryAt(list', 0) by { assert free[list[0]] == EntryAt(list, 1); }
    forall i | 0 <= i < |list'| ensures list'[i] in free' && free'[list'[i]] == EntryAt(list', i + 1) {
      assert list'[i] == list[i + 1] != list[0];
      assert free[list[i + 1]] == EntryAt(list, i + 2);
    }
    forall p | p in free' ensures p in list' {
      assert p in list;
      var i :| 0 <= i < |list| && list[i] == p;
      assert list'[i - 1] == p;
    }
  }

  class PageFile<T(==)> {
    var used: map<PageID, T>
    var free: map<PageID, PageID>
    var nextPageID: PageID
    var freePageListHeader: PageID
    ghost var freeList: seq<PageID>

    /** Every id below nextPageID is either in use or on the free list, and never both. */
    ghost predicate Valid()
      reads this
    {
      && 1 <= nextPageID <= PAGE_LIMIT
      && used.Keys !! free.Keys
      && (forall p :: p in used || p in free <==> 1 <= p < nextPageID)
      && FreeChain(free, freePageListHeader, freeList)
    }

    /** How many pages can still be handed out before pages share their place in the file. */
    ghost function Room(): nat
      requires Valid()
      reads this
    {
      |freeList| + (PAGE_LIMIT - nextPageID)
    }

    constructor ()
      ensures Valid() && used == map[] && free == map[] && Room() == PAGE_LIMIT - 1
    {
      used, free := map[], map[];
      nextPageID, freePageListHeader := 1, INVALID_PAGE_ID;
      freeList := [];
    }

    /** Hands out a page that was not in use, recycling the most recently deleted one first. */
    method New(blank: T) returns (id: PageID)
      requires Valid() && Room() >= 1
      modifies this
      ensures Valid() && Room() == old(Room()) - 1
      ensures id !in old(used) && 1 <= id < PAGE_LIMIT
      ensures used == old(used)[id := blank]
      ensures if old(freeList) == [] then id == old(nextPageID) && freeList == [] && nextPageID == id + 1
              else id == old(freeList)[0] && freeList == old(freeList)[1..] && nextPageID == old(nextPageID)
    {
      if freePageListHeader == INVALID_PAGE_ID {
        id := nextPageID;
        nextPageID := nextPageID + 1;
      } else {
        PopFree(free, freePageListHeader, freeList);
        id := freePageListHeader;
        freePageListHeader := free[id];
        free := free - {id};
        freeList := freeList[1..];
      }
      used := used[id := blank];
    }

    /** Puts a page on the free list. Refused for the header, ids never handed out, pages that somebody else
        has pinned, and pages that are free already. */
    method Delete(id: PageID, exclusive: bool) returns (ok: bool)
      requires Valid()
      modifies this
      ensures Valid() && nextPageID == old(nextPageID)
      ensures ok <==> id in old(used) && exclusive
      ensures ok ==> used == old(used) - {id} && freeList == [id] + old(freeList) && Room() == old(Room()) + 1
      ensures !ok ==> used == old(used) && freeList == old(freeList) && free == old(free) && Room() == old(Room())
    {
      if id == INVALID_PAGE_ID || id < 1 || nextPageID <= id {
        return false;
      }
      if !exclusive {
        return false;
      }
      if id in free {
        return false;
      }
      PushFree(free, freePageListHeader, freeList, id);
      used := used - {id};
      free := free[id := freePageListHeader];
      freePageListHeader := id;
      freeList := [id] + freeList;
      return true;
    }

    /** Writes back pages that were changed in place. */
    method WriteBack(pages: map<PageID, T>)
      requires Valid() && pages.Keys == used.Keys
      modifies this`used
      ensures Valid() && used == pages
    {
      used := pages;
      assert forall p :: p in used <==> p in used.Keys;
    }
  }
}
