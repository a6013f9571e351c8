/** A leaf page whose entry array is changed in place (src/page/b_plus_tree_leaf_page.cpp). */
module LeafPage {
  import opened Basics
  import opened NodeOps
  import opened PageEntries

  type Item = (int, RecordID)

  lemma Halves(n: Node, entries: seq<Item>)
    requires n.Leaf? && n.keys == Firsts(entries) && n.vals == Seconds(entries)
    ensures var half := (|entries| + 1) / 2;
            && LowerHalf(n) == Leaf(n.parent, n.next, Firsts(entries[..half]), Seconds(entries[..half]))
            && UpperHalf(n) == Leaf(n.parent, INVALID_PAGE_ID, Firsts(entries[half..]), Seconds(entries[half..]))
  {
    var half := (|entries| + 1) / 2;
    SliceParts(entries, 0, half);
    SliceParts(entries, half, |entries|);
  }

  class LeafPage {
    /** The memory of the entry array; only the first `size` entries count. */
    const items: array<Item>
    var size: nat
    var parent: PageID
    var next: PageID

    ghost predicate Valid()
      reads this
    {
      size <= items.Length
    }

    ghost function Entries(): seq<Item>
      requires Valid()
      reads this, items
    {
      items[..size]
    }

    /** The page as the tree sees it. */
    ghost function Value(): Node
      requires Valid()
      reads this, items
    {
      Leaf(parent, next, Firsts(Entries()), Seconds(Entries()))
    }

    constructor (capacity: nat, parent: PageID)
      ensures Valid() && fresh(items) && items.Length == capacity
      ensures Value() == Leaf(parent, INVALID_PAGE_ID, [], [])
    {
      items := new Item[capacity](_ => (0, RecordID(0, 0)));
      size, this.parent, next := 0, parent, INVALID_PAGE_ID;
    }

    /** The first index whose key is not smaller than the argument. */
    method KeyIndexOf(key: int) returns (i: nat)
      requires Valid()
      ensures i == KeyIndex(Value().keys, key)
    {
      i := 0;
      while i < size && items[i].0 < key
        invariant i <= size && forall j :: 0 <= j < i ==> items[j].0 < key
      {
        i := i + 1;
      }
      KeyIndexIs(Value().keys, key, i);
    }

    method Lookup(key: int) returns (r: Option<RecordID>)
      requires Valid()
      ensures r == LeafLookup(Value(), key)
    {
      for i := 0 to size
        invariant forall j :: 0 <= j < i ==> items[j].0 != key
      {
        if items[i].0 == key {
          FirstIndexIs(Value().keys, key, i);
          return Some(items[i].1);
        }
      }
      return None;
    }

    /** Inserts a pair behind the entries whose keys are not larger, moving the others up by one. */
    method Insert(key: int, value: RecordID)
      requires Valid() && size < items.Length
      modifies `size, items
      ensures Valid() && size == old(size) + 1
      ensures Value() == LeafInsert(old(Value()), key, value)
    {
      ghost var before := Entries();
      var i := size;
      while 0 < i && key < items[i - 1].0
        invariant 0 <= i <= size == |before|
        invariant forall j {:trigger before[j]} :: 0 <= j < i ==> items[j] == before[j]
        invariant forall j {:trigger before[j]} :: i <= j < size ==> items[j + 1] == before[j] && key < before[j].0
      {
        items[i] := items[i - 1];
        i := i - 1;
      }
      items[i] := (key, value);
      size := size + 1;
      MovedUp(before, Entries(), i, (key, value));
      InsertParts(before, i, (key, value));
      InsertPosIs(Firsts(before), key, i);
    }

    /** Removes the first entry with this key, if there is one, moving the later ones down. */
    method RemoveAndDeleteRecord(key: int) returns (r: Option<RecordID>)
      requires Valid() && size < items.Length
      modifies `size, items
      ensures Valid() && r == LeafLookup(old(Value()), key)
      ensures Value() == if key in old(Value()).keys then LeafDelete(old(Value()), key) else old(Value())
    {
      var i := 0;
      while i < size && items[i].0 != key
        invariant i <= size && forall j :: 0 <= j < i ==> items[j].0 != key
      {
        i := i + 1;
      }
      if i == size {
        return None;
      }
      r := Some(items[i].1);
      FirstIndexIs(Value().keys, key, i);
      RemoveParts(Entries(), i);
      MoveDownOver(i);
    }

    /** Moves the entries behind entry i down by one. */
    method MoveDownOver(i: nat)
      requires Valid() && i < size < items.Length
      modifies `size, items
      ensures Valid() && Entries() == RemoveAt(old(Entries()), i)
    {
      ghost var before := Entries();
      for k := i to size
        invariant size == |before|
        invariant forall j {:trigger before[j]} :: 0 <= j < i ==> items[j] == before[j]
        invariant forall j {:trigger before[j]} :: i < j <= k && j < size ==> items[j - 1] == before[j]
        invariant forall j {:trigger before[j]} :: k <= j < size ==> items[j] == before[j]
      {
        items[k] := items[k + 1];
      }
      size := size - 1;
      MovedDown(before, Entries(), i);
    }

    /** Appends entries. */
    method CopyNFrom(entries: seq<Item>)
      requires Valid() && size + |entries| <= items.Length
      modifies `size, items
      ensures Valid() && Entries() == old(Entries()) + entries
    {
      var oldSize := size;
      size := size + |entries|;
      for i := 0 to |entries|
        invariant size == oldSize + |entries| && items[..oldSize] == old(Entries())
        invariant forall j :: 0 <= j < i ==> items[oldSize + j] == entries[j]
      {
        items[i + oldSize] := entries[i];
      }
    }

    method CopyLastFrom(item: Item)
      requires Valid() && size < items.Length
      modifies `size, items
      ensures Valid() && Entries() == old(Entries()) + [item]
    {
      items[size] := item;
      size := size + 1;
    }

    /** Puts an entry in front of all others. */
    method CopyFirstFrom(item: Item)
      requires Valid() && size < items.Length
      modifies `size, items
      ensures Valid() && Entries() == [item] + old(Entries())
    {
      ghost var before := Entries();
      var i := size;
      while i > 0
        invariant 0 <= i <= size == |before|
        invariant forall j {:trigger before[j]} :: 0 <= j < i ==> items[j] == before[j]
        invariant forall j {:trigger before[j]} :: i <= j < size ==> items[j + 1] == before[j]
      {
        items[i] := items[i - 1];
        i := i - 1;
      }
      items[0] := item;
      size := size + 1;
    }

    /** Moves the upper half of the entries to another, empty page; of an odd number the larger half stays. */
    method MoveHalfTo(recipient: LeafPage)
      requires Valid() && recipient.Valid() && recipient != this && recipient.items != items
      requires recipient.size == 0 && size <= recipient.items.Length
      requires recipient.parent == parent && recipient.next == INVALID_PAGE_ID
      modifies `size, recipient`size, recipient.items
      ensures Valid() && recipient.Valid()
      ensures Value() == LowerHalf(old(Value())) && recipient.Value() == UpperHalf(old(Value()))
      ensures size == (old(size) + 1) / 2 && recipient.size == old(size) / 2
    {
      var half := (size + 1) / 2;
      Halves(Value(), Entries());
      recipient.CopyNFrom(items[half..size]);
      size := half;
      assert Entries() == old(Entries())[..half] && recipient.Entries() == old(Entries())[half..];
    }

    /** Moves all entries to the end of the left neighbour, which takes over the link to the next leaf. */
    method MoveAllTo(recipient: LeafPage)
      requires Valid() && recipient.Valid() && recipient != this && recipient.items != items
      requires recipient.size + size <= recipient.items.Length
      modifies `size, recipient`size, recipient`next, recipient.items
      ensures Valid() && recipient.Valid()
      ensures recipient.Value() == Merged(old(recipient.Value()), old(Value()), 0)
      ensures Value() == Drained(old(Value()))
    {
      ConcatParts(recipient.Entries(), Entries());
      recipient.CopyNFrom(items[..size]);
      size := 0;
      recipient.next := next;
    }

    /** Moves the first entry to the end of the left neighbour. */
    method MoveFirstToEndOf(recipient: LeafPage)
      requires Valid() && recipient.Valid() && recipient != this && recipient.items != items
      requires size >= 1 && recipient.size < recipient.items.Length
      modifies `size, items, recipient`size, recipient.items
      ensures Valid() && recipient.Valid()
      ensures recipient.Value() == FirstToEndLeft(old(recipient.Value()), old(Value()), 0)
      ensures Value() == WithoutFirst(old(Value()))
    {
      ConcatParts(recipient.Entries(), [items[0]]);
      SliceParts(Entries(), 1, size);
      recipient.CopyLastFrom(items[0]);
      DropFirst();
    }

    /** Moves all entries down by one over the first. */
    method DropFirst()
      requires Valid() && size >= 1
      modifies `size, items
      ensures Valid() && Entries() == old(Entries())[1..old(size)]
    {
      ghost var before := Entries();
      var oldSize := size;
      for i := 1 to oldSize
        invariant size == oldSize
        invariant forall j {:trigger before[j]} :: 1 <= j < i ==> items[j - 1] == before[j]
        invariant forall j {:trigger before[j]} :: i - 1 <= j < oldSize ==> items[j] == before[j]
      {
        items[i - 1] := items[i];
      }
      size := size - 1;
      MovedDown(before, Entries(), 0);
      assert RemoveAt(before, 0) == before[1..oldSize];
    }

    /** Moves the last entry to the front of the right neighbour. */
    method MoveLastToFrontOf(recipient: LeafPage)
      requires Valid() && recipient.Valid() && recipient != this && recipient.items != items
      requires size >= 1 && recipient.size < recipient.items.Length
      modifies `size, recipient`size, recipient.items
      ensures Valid() && recipient.Valid()
      ensures recipient.Value() == LastToFrontRight(old(Value()), old(recipient.Value()), 0)
      ensures Value() == WithoutLast(old(Value()))
    {
      ConcatParts([items[size - 1]], recipient.Entries());
      SliceParts(Entries(), 0, size - 1);
      recipient.CopyFirstFrom(items[size - 1]);
      size := size - 1;
      assert Entries() == old(Entries())[0..size];
    }
  }
}
