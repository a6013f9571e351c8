/** An internal page whose entry array is changed in place; children that move are given their new parent
    (src/page/b_plus_tree_internal_page.cpp). */
module InternalPage {
  import opened Basics
  import opened NodeOps
  import opened PageEntries

  type Item = (int, PageID)

  /** Where a scan from the end for the child c stops. */
  lemma LastOccurrence(entries: seq<Item>, c: PageID, i: nat)
    requires c in Seconds(entries) && i <= |entries| && (i == 0 || entries[i - 1].1 == c)
    requires forall j :: i <= j < |entries| ==> entries[j].1 != c
    ensures i == LastIndexOf(Seconds(entries), c) + 1
  {
    var j :| 0 <= j < |entries| && Seconds(entries)[j] == c;
    LastIndexIs(Seconds(entries), c, i - 1);
  }

  lemma Halves(n: Node, entries: seq<Item>)
    requires n.Internal? && n.keys == Firsts(entries) && n.kids == Seconds(entries)
    ensures var half := (|entries| + 1) / 2;
            && LowerHalf(n) == Internal(n.parent, Firsts(entries[..half]), Seconds(entries[..half]))
            && UpperHalf(n) == Internal(n.parent, Firsts(entries[half..]), Seconds(entries[half..]))
            && forall c :: c in Seconds(entries[half..]) ==> c in n.kids
  {
    var half := (|entries| + 1) / 2;
    SliceParts(entries, 0, half);
    SliceParts(entries, half, |entries|);
  }

  class InternalPage {
    const id: PageID
    /** The memory of the entry array; only the first `size` entries count. */
    const items: array<Item>
    var size: nat
    var parent: PageID

    ghost predicate Valid()
      reads this
    {
      size <= items.Length
    }

    ghost function Entries(): seq<Item>
      requires Valid()
      reads this, items
    {
      items[..size]
    }

    /** The page as the tree sees it. */
    ghost function Value(): Node
      requires Valid()
      reads this, items
    {
      Internal(parent, Firsts(Entries()), Seconds(Entries()))
    }

    constructor (id: PageID, capacity: nat, parent: PageID)
      ensures Valid() && fresh(items) && items.Length == capacity && this.id == id
      ensures Value() == Internal(parent, [], [])
    {
      this.id := id;
      items := new Item[capacity](_ => (ZERO_KEY, 0));
      size, this.parent := 0, parent;
    }

    /** The position of the first entry for a child. None stands for the "value doesn't exist" exception. */
    method ValueIndex(c: PageID) returns (r: Option<nat>)
      requires Valid()
      ensures r == if c in Value().kids then Some(FirstIndexOf(Value().kids, c)) else None
    {
      for i := 0 to size
        invariant forall j :: 0 <= j < i ==> items[j].1 != c
      {
        if items[i].1 == c {
          FirstIndexIs(Value().kids, c, i);
          return Some(i);
        }
      }
      return None;
    }

    /** The child in charge of a key. The first key is never compared. */
    method Lookup(key: int) returns (c: PageID)
      requires Valid() && size >= 1
      ensures c == Value().kids[LookupSlot(Value().keys, key)]
    {
      var i := 1;
      while i < size && !(key < items[i].0)
        invariant 1 <= i <= size && forall j :: 1 <= j < i ==> items[j].0 <= key
      {
        i := i + 1;
      }
      LookupSlotIs(Value().keys, key, i);
      return items[i - 1].1;
    }

    /** Fills a new root. The memory of the unused first key keeps its zero bytes. */
    method PopulateNewRoot(oldValue: PageID, newKey: int, newValue: PageID)
      requires Valid() && size == 0 && items.Length >= 2 && items[0].0 == ZERO_KEY
      modifies `size, items
      ensures Valid() && Value() == Internal(parent, [ZERO_KEY, newKey], [oldValue, newValue])
    {
      items[0] := (items[0].0, oldValue);
      items[1] := (newKey, newValue);
      size := 2;
    }

    /** Inserts an entry right behind that of a given child. */
    method InsertAfter(oldValue: PageID, newKey: int, newValue: PageID)
      requires Valid() && size < items.Length && oldValue in Value().kids
      modifies `size, items
      ensures Valid() && Value() == InsertNodeAfter(old(Value()), oldValue, newKey, newValue)
    {
      ghost var before := Entries();
      var i := MoveUpBehind(oldValue);
      items[i] := (newKey, newValue);
      size := size + 1;
      MovedUp(before, Entries(), i, (newKey, newValue));
      InsertParts(before, i, (newKey, newValue));
    }

    /** Moves the entries behind that of a given child up by one, scanning from the end. */
    method MoveUpBehind(c: PageID) returns (i: nat)
      requires Valid() && size < items.Length && c in Seconds(Entries())
      modifies items
      ensures i == LastIndexOf(Seconds(old(Entries())), c) + 1
      ensures forall j :: 0 <= j < i ==> items[j] == old(Entries())[j]
      ensures forall j :: i <= j < size ==> items[j + 1] == old(Entries())[j]
    {
      ghost var before := Entries();
      i := size;
      while 0 < i && items[i - 1].1 != c
        invariant 0 <= i <= size == |before|
        invariant forall j {:trigger before[j]} :: 0 <= j < i ==> items[j] == before[j]
        invariant forall j {:trigger before[j]} :: i <= j < size ==> items[j + 1] == before[j] && before[j].1 != c
      {
        items[i] := items[i - 1];
        i := i - 1;
      }
      LastOccurrence(before, c, i);
    }

    /** Removes entry i. */
    method Remove(i: nat)
      requires Valid() && i < size
      modifies `size, items
      ensures Valid() && Value() == RemoveSlot(old(Value()), i)
    {
      RemoveParts(Entries(), i);
      MoveDownOver(i);
    }

    /** Moves the entries behind entry i down by one. */
    method MoveDownOver(i: nat)
      requires Valid() && i < size
      modifies `size, items
      ensures Valid() && Entries() == RemoveAt(old(Entries()), i)
    {
      ghost var before := Entries();
      for k := i to size - 1
        invariant size == |before|
        invariant forall j {:trigger before[j]} :: 0 <= j < i ==> items[j] == before[j]
        invariant forall j {:trigger before[j]} :: i < j <= k ==> items[j - 1] == before[j]
        invariant forall j {:trigger before[j]} :: k <= j < size ==> items[j] == before[j]
      {
        items[k] := items[k + 1];
      }
      size := size - 1;
      MovedDown(before, Entries(), i);
    }

    method RemoveAndReturnOnlyChild() returns (c: PageID)
      requires Valid() && size == 1
      modifies `size
      ensures Valid() && c == old(Value()).kids[0] && Value() == Drained(old(Value()))
    {
      c := items[0].1;
      size := size - 1;
    }

    /** Appends entries and becomes the parent of their children. */
    method CopyNFrom(entries: seq<Item>, pages: map<PageID, Node>) returns (r: map<PageID, Node>)
      requires Valid() && size + |entries| <= items.Length
      requires forall c :: c in Seconds(entries) ==> c in pages
      modifies `size, items
      ensures Valid() && Entries() == old(Entries()) + entries
      ensures r == Adopt(pages, Seconds(entries), id)
    {
      r := pages;
      ghost var kids := Seconds(entries);
      var oldSize := size;
      size := size + |entries|;
      for i := 0 to |entries|
        invariant size == oldSize + |entries| && items[..oldSize] == old(Entries())
        invariant forall j :: 0 <= j < i ==> items[oldSize + j] == entries[j]
        invariant r == Adopt(pages, kids[..i], id)
      {
        items[i + oldSize] := entries[i];
        var c := entries[i].1;
        assert c == kids[i] && c in kids;
        AdoptNext(pages, kids[..i], c, id);
        assert kids[..i + 1] == kids[..i] + [c];
        r := r[c := SetParent(r[c], id)];
      }
      assert kids[..|entries|] == kids;
    }

    /** Appends one entry and becomes the parent of its child. */
    method CopyLastFrom(item: Item, pages: map<PageID, Node>) returns (r: map<PageID, Node>)
      requires Valid() && size < items.Length && item.1 in pages
      modifies `size, items
      ensures Valid() && Entries() == old(Entries()) + [item]
      ensures r == Adopt(pages, [item.1], id)
    {
      size := size + 1;
      items[size - 1] := item;
      r := pages[item.1 := SetParent(pages[item.1], id)];
    }

    /** Puts one entry in front and becomes the parent of its child. The loop also writes one entry past the end. */
    method CopyFirstFrom(item: Item, pages: map<PageID, Node>) returns (r: map<PageID, Node>)
      requires Valid() && size + 1 < items.Length && item.1 in pages
      modifies `size, items
      ensures Valid() && Entries() == [item] + old(Entries())
      ensures r == Adopt(pages, [item.1], id)
    {
      ghost var before := Entries();
      size := size + 1;
      var i := size;
      while 0 < i
        invariant 0 <= i <= size == |before| + 1
        invariant forall j {:trigger before[j]} :: 0 <= j < i && j < |before| ==> items[j] == before[j]
        invariant forall j {:trigger before[j]} :: i <= j < |before| ==> items[j + 1] == before[j]
      {
        items[i] := items[i - 1];
        i := i - 1;
      }
      items[0] := item;
      r := pages[item.1 := SetParent(pages[item.1], id)];
    }

    /** Moves the upper half of the entries to another, empty page; of an odd number the larger half stays. */
    method MoveHalfTo(recipient: InternalPage, pages: map<PageID, Node>) returns (r: map<PageID, Node>)
      requires Valid() && recipient.Valid() && recipient != this && recipient.items != items
      requires recipient.size == 0 && size <= recipient.items.Length && recipient.parent == parent
      requires forall c :: c in Value().kids ==> c in pages
      modifies `size, recipient`size, recipient.items
      ensures Valid() && recipient.Valid()
      ensures Value() == LowerHalf(old(Value())) && recipient.Value() == UpperHalf(old(Value()))
      ensures size == (old(size) + 1) / 2 && recipient.size == old(size) / 2
      ensures r == Adopt(pages, UpperHalf(old(Value())).kids, recipient.id)
    {
      var half := (size + 1) / 2;
      Halves(Value(), Entries());
      assert forall c :: c in Seconds(Entries()[half..]) ==> c in pages;
      r := recipient.CopyNFrom(items[half..size], pages);
      size := half;
      assert Entries() == old(Entries())[..half] && recipient.Entries() == old(Entries())[half..];
    }

    /** Moves all entries to the end of the left neighbour; the unused first key becomes the separator. */
    method MoveAllTo(recipient: InternalPage, middleKey: int, pages: map<PageID, Node>) returns (r: map<PageID, Node>)
      requires Valid() && recipient.Valid() && recipient != this && recipient.items != items
      requires size >= 1 && recipient.size + size <= recipient.items.Length
      requires forall c :: c in Value().kids ==> c in pages
      modifies `size, items, recipient`size, recipient.items
      ensures Valid() && recipient.Valid()
      ensures recipient.Value() == Merged(old(recipient.Value()), old(Value()), middleKey)
      ensures Value() == Drained(old(Value()))
      ensures r == Adopt(pages, old(Value()).kids, recipient.id)
    {
      ghost var before := Entries();
      items[0] := (middleKey, items[0].1);
      FirstKeySet(before, Entries(), middleKey);
      ConcatParts(recipient.Entries(), Entries());
      r := recipient.CopyNFrom(items[..size], pages);
      size := 0;
    }

    /** Moves the first child to the end of the left neighbour, under the separator. */
    method MoveFirstToEndOf(recipient: InternalPage, middleKey: int, pages: map<PageID, Node>) returns (r: map<PageID, Node>)
      requires Valid() && recipient.Valid() && recipient != this && recipient.items != items
      requires size >= 1 && recipient.size < recipient.items.Length
      requires items[0].1 in pages
      modifies `size, items, recipient`size, recipient.items
      ensures Valid() && recipient.Valid()
      ensures recipient.Value() == FirstToEndLeft(old(recipient.Value()), old(Value()), middleKey)
      ensures Value() == WithoutFirst(old(Value()))
      ensures r == Adopt(pages, [old(Value()).kids[0]], recipient.id)
    {
      ghost var target, c := recipient.Entries(), items[0].1;
      ConcatParts(target, [(middleKey, c)]);
      SliceParts(Entries(), 1, size);
      r := recipient.CopyLastFrom(items[0], pages);
      recipient.items[recipient.size - 1] := (middleKey, recipient.items[recipient.size - 1].1);
      assert recipient.Entries() == target + [(middleKey, c)];
      assert RemoveAt(Entries(), 0) == Entries()[1..size];
      MoveDownOver(0);
    }

    /** Moves the last child to the front of the right neighbour, whose unused first key becomes the separator. */
    method MoveLastToFrontOf(recipient: InternalPage, middleKey: int, pages: map<PageID, Node>) returns (r: map<PageID, Node>)
      requires Valid() && recipient.Valid() && recipient != this && recipient.items != items
      requires size >= 1 && 1 <= recipient.size && recipient.size + 1 < recipient.items.Length
      requires items[size - 1].1 in pages
      modifies `size, recipient`size, recipient.items
      ensures Valid() && recipient.Valid()
      ensures recipient.Value() == LastToFrontRight(old(Value()), old(recipient.Value()), middleKey)
      ensures Value() == WithoutLast(old(Value()))
      ensures r == Adopt(pages, [old(Value()).kids[old(size) - 1]], recipient.id)
    {
      ghost var target := recipient.Entries();
      SliceParts(Entries(), 0, size - 1);
      recipient.items[0] := (middleKey, recipient.items[0].1);
      FirstKeySet(target, recipient.Entries(), middleKey);
      ConcatParts([items[size - 1]], recipient.Entries());
      r := recipient.CopyFirstFrom(items[size - 1], pages);
      size := size - 1;
      assert Entries() == old(Entries())[0..size];
    }
  }
}
