/** Each step of an insertion, as a change of the tree value, and the invariant it re-establishes. */
module TreeInsertProofs {
  import opened Basics
  import opened NodeOps
  import opened TreeInvariant

  /** A tree of one leaf with one pair; pages outside the tree may hold anything. */
  lemma FirstLeaf(pages: map<PageID, Node>, id: PageID, key: int, value: RecordID, lim: Limits)
    requires LimitsOk(lim) && 0 <= key < KEY_SPACE && 0 < id < INVALID_PAGE_ID && id in pages
    requires pages[id] == LeafInsert(Leaf(INVALID_PAGE_ID, INVALID_PAGE_ID, [], []), key, value)
    ensures Inv(Tree(pages, map[id := Meta(0, 0, KEY_SPACE)], id), map[key := value], Sound, lim)
  {
    var t, C := Tree(pages, map[id := Meta(0, 0, KEY_SPACE)], id), map[key := value];
    assert t.pages[id] == Leaf(INVALID_PAGE_ID, INVALID_PAGE_ID, [key], [value]);
    assert LinksOk(t, Sound, id);
    assert LeafOk(t.meta[id], t.pages[id], C);
    assert SizeOk(t, Sound, id, lim);
  }

  lemma {:induction false} InsertPosSplits(keys: seq<int>, key: int)
    requires Sorted(keys)
    ensures var i := InsertPos(keys, key);
            && (forall j :: 0 <= j < i ==> keys[j] <= key)
            && (forall j :: i <= j < |keys| ==> key < keys[j])
  {
    if |keys| != 0 && key < keys[|keys| - 1] {
      InsertPosSplits(keys[..|keys| - 1], key);
    }
  }

  lemma LeafInsertSorted(keys: seq<int>, key: int)
    requires Sorted(keys) && key !in keys
    ensures Sorted(InsertAt(keys, InsertPos(keys, key), key))
  {
    InsertPosSplits(keys, key);
    InsertAtElements(keys, InsertPos(keys, key), key);
  }

  lemma LeafInsertOk(m: Meta, n: Node, C: Contents, key: int, val: RecordID)
    requires n.Leaf? && LeafOk(m, n, C) && key !in C && m.lo <= key < m.hi
    ensures LeafOk(m, LeafInsert(n, key, val), C[key := val])
    ensures Size(LeafInsert(n, key, val)) == Size(n) + 1
  {
    LeafInsertSorted(n.keys, key);
    var i := InsertPos(n.keys, key);
    InsertAtElements(n.keys, i, key);
    InsertAtElements(n.vals, i, val);
  }

  /** Adding an absent key to the leaf in charge of it: only that leaf's size may now be wrong. */
  lemma AddToLeaf(t: Tree, C: Contents, p: PageID, key: int, val: RecordID, lim: Limits)
    requires Inv(t, C, Sound, lim) && p in t.meta && p in t.pages && t.pages[p].Leaf?
    requires t.meta[p].lo <= key < t.meta[p].hi && key !in C && 0 <= key < KEY_SPACE
    requires |t.pages[p].keys| == |t.pages[p].vals|
    ensures Inv(SetPage(t, p, LeafInsert(t.pages[p], key, val)), C[key := val], BadSize(p), lim)
  {
    var n := LeafInsert(t.pages[p], key, val);
    var t' := SetPage(t, p, n);
    LeafEditLinks(t, Sound, p, n, BadSize(p));
    forall q | q in t'.meta && q in t'.pages ensures LeafOk(t'.meta[q], t'.pages[q], C[key := val]) {
      assert LinksOk(t, Sound, p) && LinksOk(t, Sound, q);
      assert LeafOk(t.meta[q], t.pages[q], C);
      if q == p {
        LeafInsertOk(t.meta[p], t.pages[p], C, key, val);
      } else if t.pages[q].Leaf? && t.meta[q].lo <= key < t.meta[q].hi {
        Unique(t, Sound, p, q);
      }
    }
    forall q | q in t'.meta && q in t'.pages && q != p ensures SizeOk(t', BadSize(p), q, lim) {
      assert SizeOk(t, Sound, q, lim);
    }
  }

  // ---------- Splitting a leaf ----------

  function SplitTree(t: Tree, p: PageID, lower: Node, r: PageID, upper: Node, mid: int): Tree
    requires p in t.meta
  {
    t.(pages := t.pages[p := lower][r := upper],
       meta := t.meta[p := t.meta[p].(hi := mid)][r := t.meta[p].(lo := mid)])
  }

  lemma SplitLeafLinks(t: Tree, p: PageID, r: PageID, n: Node, mid: int)
    requires Links(t, BadSize(p)) && p in t.meta && p in t.pages && n == t.pages[p] && n.Leaf?
    requires |n.keys| == |n.vals|
    requires r !in t.meta && 0 < r < INVALID_PAGE_ID
    requires t.meta[p].lo < mid < t.meta[p].hi
    ensures Links(SplitTree(t, p, LowerLeaf(n, r), r, UpperLeaf(n), mid), Orphan(p, r))
  {
    var d := Orphan(p, r);
    var t' := SplitTree(t, p, LowerLeaf(n, r), r, UpperLeaf(n), mid);
    forall q | q in t'.meta ensures LinksOk(t', d, q) {
      assert LinksOk(t, BadSize(p), p);
      if q != r {
        assert LinksOk(t, BadSize(p), q);
      }
    }
  }

  lemma SplitLeaf(t: Tree, C: Contents, p: PageID, r: PageID, lim: Limits)
    requires Inv(t, C, BadSize(p), lim) && p in t.meta && p in t.pages && t.pages[p].Leaf?
    requires |t.pages[p].keys| == |t.pages[p].vals| == lim.leafMax
    requires r !in t.meta && 0 < r < INVALID_PAGE_ID
    ensures var n := t.pages[p];
            Inv(SplitTree(t, p, LowerLeaf(n, r), r, UpperLeaf(n), UpperHalf(n).keys[0]), C, Orphan(p, r), lim)
  {
    var n := t.pages[p];
    assert LeafOk(t.meta[p], n, C);
    HoldsSplit(C, t.meta[p].lo, t.meta[p].hi, n.keys, n.vals, (|n.keys| + 1) / 2);
    var mid := UpperHalf(n).keys[0];
    SplitLeafLinks(t, p, r, n, mid);
    var t' := SplitTree(t, p, LowerLeaf(n, r), r, UpperLeaf(n), mid);
    forall q | q in t'.meta && q in t'.pages ensures LeafOk(t'.meta[q], t'.pages[q], C) {
      assert q != r ==> LeafOk(t.meta[q], t.pages[q], C);
    }
    forall q | q in t'.meta && q in t'.pages ensures SizeOk(t', Orphan(p, r), q, lim) {
      assert q != p && q != r ==> SizeOk(t, BadSize(p), q, lim);
    }
  }

  // ---------- Growing a new root ----------

  /** The tree after a split root and its new sibling were put under a new root page. */
  function NewRootTree(t: Tree, l: PageID, r: PageID, id: PageID): Tree
    requires l in t.pages && r in t.pages && l in t.meta && r in t.meta
  {
    var root := Internal(INVALID_PAGE_ID, [ZERO_KEY, t.meta[r].lo], [l, r]);
    Tree(t.pages[id := root][l := SetParent(t.pages[l], id)][r := SetParent(t.pages[r], id)],
         t.meta[id := Meta(t.meta[l].level + 1, 0, KEY_SPACE)], id)
  }

  lemma NewRootPages(t: Tree, l: PageID, r: PageID, id: PageID)
    requires l in t.pages && r in t.pages && l in t.meta && r in t.meta && id != l && id != r
    ensures var root := Internal(INVALID_PAGE_ID, [ZERO_KEY, t.meta[r].lo], [l, r]);
            Adopt(t.pages[id := root], [l, r], id) == NewRootTree(t, l, r, id).pages
  {
  }

  lemma NewRootLinks(t: Tree, l: PageID, r: PageID, id: PageID)
    requires Links(t, Orphan(l, r)) && l == t.root && l in t.pages && r in t.pages
    requires id !in t.meta && 0 < id < INVALID_PAGE_ID
    ensures Links(NewRootTree(t, l, r, id), Sound)
  {
    var d := Orphan(l, r);
    var t' := NewRootTree(t, l, r, id);
    assert LinksOk(t, d, l) && LinksOk(t, d, r);
    forall q | q in t'.meta ensures LinksOk(t', Sound, q) {
      if q != id {
        assert LinksOk(t, d, q);
      }
    }
  }

  lemma NewRoot(t: Tree, C: Contents, l: PageID, r: PageID, id: PageID, lim: Limits)
    requires Inv(t, C, Orphan(l, r), lim) && l == t.root && l in t.pages && r in t.pages
    requires id !in t.meta && 0 < id < INVALID_PAGE_ID
    ensures Inv(NewRootTree(t, l, r, id), C, Sound, lim)
  {
    NewRootLinks(t, l, r, id);
    var t' := NewRootTree(t, l, r, id);
    forall q | q in t'.meta && q in t'.pages
      ensures LeafOk(t'.meta[q], t'.pages[q], C) && SizeOk(t', Sound, q, lim)
    {
      if q != id {
        assert LinksOk(t, Orphan(l, r), q);
        assert LeafOk(t.meta[q], t.pages[q], C) && SizeOk(t, Orphan(l, r), q, lim);
      }
    }
  }

  // ---------- Registering a new page in its parent ----------

  /** Inserting a pair after position i cuts slot i in two and leaves the other slots alone. */
  lemma InsertSlots(m: Meta, n: Node, i: nat, key: int, id: PageID, j: nat)
    requires n.Internal? && i < |n.keys| == |n.kids| && j <= |n.kids|
    ensures var n' := n.(keys := InsertAt(n.keys, i + 1, key), kids := InsertAt(n.kids, i + 1, id));
            && n'.kids[j] == (if j <= i then n.kids[j] else if j == i + 1 then id else n.kids[j - 1])
            && SlotLo(m, n', j) == (if j <= i then SlotLo(m, n, j) else if j == i + 1 then key else SlotLo(m, n, j - 1))
            && SlotHi(m, n', j) == (if j < i then SlotHi(m, n, j) else if j == i then key else SlotHi(m, n, j - 1))
  {
    InsertAtElements(n.keys, i + 1, key);
    InsertAtElements(n.kids, i + 1, id);
  }

  lemma InsertNodeAfterDown(t: Tree, l: PageID, r: PageID, q: PageID)
    requires Links(t, Orphan(l, r)) && q in t.meta && q in t.pages && t.pages[q].Internal?
    requires |t.pages[q].keys| == |t.pages[q].kids| && l in t.pages[q].kids
    requires r in t.pages && !t.pages[r].Blank? && t.pages[r].parent == q
    ensures DownOk(SetPage(t, q, InsertNodeAfter(t.pages[q], l, t.meta[r].lo, r)), BadSize(q), q)
  {
    var d := Orphan(l, r);
    var m, n := t.meta[q], t.pages[q];
    var i := LastIndexOf(n.kids, l);
    var n' := InsertNodeAfter(n, l, t.meta[r].lo, r);
    var t' := SetPage(t, q, n');
    assert LinksOk(t, d, q) && LinksOk(t, d, l) && LinksOk(t, d, r);
    forall j | 0 <= j < |n'.kids|
      ensures ChildOk(t', BadSize(q), q, n'.kids[j], SlotLo(m, n', j), SlotHi(m, n', j))
    {
      InsertSlots(m, n, i, t.meta[r].lo, r, j);
      var h := if j <= i then j else j - 1;
      assert ChildOk(t, d, q, n.kids[h], SlotLo(m, n, h), SlotHi(m, n, h));
      if h != i && n.kids[h] == l {
        SlotsIncrease(t, d, q, if h < i then h else i, if h < i then i else h);
      }
    }
  }

  lemma InsertNodeAfterLinks(t: Tree, l: PageID, r: PageID, q: PageID)
    requires Links(t, Orphan(l, r)) && q in t.meta && q in t.pages && t.pages[q].Internal?
    requires |t.pages[q].keys| == |t.pages[q].kids| && l in t.pages[q].kids
    requires l != t.root && l in t.pages && !t.pages[l].Blank? && t.pages[l].parent == q
    ensures Links(SetPage(t, q, InsertNodeAfter(t.pages[q], l, t.meta[r].lo, r)), BadSize(q))
  {
    var d := Orphan(l, r);
    var n := t.pages[q];
    var i := LastIndexOf(n.kids, l);
    var t' := SetPage(t, q, InsertNodeAfter(n, l, t.meta[r].lo, r));
    assert LinksOk(t, d, q) && LinksOk(t, d, l) && LinksOk(t, d, r);
    InsertNodeAfterDown(t, l, r, q);
    InsertAtElements(n.kids, i + 1, r);
    forall p | p in t'.meta ensures LinksOk(t', BadSize(q), p) {
      assert LinksOk(t, d, p);
    }
  }

  /** The parent of a freshly split page takes the new page in; afterwards only its size may be wrong. */
  lemma Register(t: Tree, C: Contents, l: PageID, r: PageID, q: PageID, lim: Limits)
    requires Inv(t, C, Orphan(l, r), lim) && q in t.meta && q in t.pages && t.pages[q].Internal?
    requires |t.pages[q].keys| == |t.pages[q].kids| && l in t.pages[q].kids
    requires l != t.root && l in t.pages && !t.pages[l].Blank? && t.pages[l].parent == q
    ensures var n := InsertNodeAfter(t.pages[q], l, t.meta[r].lo, r);
            Inv(SetPage(t, q, n), C, BadSize(q), lim) && Size(n) == Size(t.pages[q]) + 1
  {
    InsertNodeAfterLinks(t, l, r, q);
    var t' := SetPage(t, q, InsertNodeAfter(t.pages[q], l, t.meta[r].lo, r));
    forall p | p in t'.meta && p in t'.pages
      ensures LeafOk(t'.meta[p], t'.pages[p], C) && (p != q ==> SizeOk(t', BadSize(q), p, lim))
    {
      if p != q {
        assert LeafOk(t.meta[p], t.pages[p], C) && SizeOk(t, Orphan(l, r), p, lim);
      }
    }
  }

  // ---------- Splitting an internal page ----------

  function SplitInternalTree(t: Tree, p: PageID, r: PageID): Tree
    requires p in t.meta && p in t.pages && t.pages[p].Internal? && |t.pages[p].keys| == |t.pages[p].kids| >= 2
  {
    var n := t.pages[p];
    var t' := SplitTree(t, p, LowerHalf(n), r, UpperHalf(n), UpperHalf(n).keys[0]);
    t'.(pages := Adopt(t'.pages, UpperHalf(n).kids, r))
  }

  lemma SplitInternalDown(t: Tree, p: PageID, r: PageID)
    requires Links(t, BadSize(p)) && p in t.meta && p in t.pages && t.pages[p].Internal?
    requires |t.pages[p].keys| == |t.pages[p].kids| >= 4
    requires r !in t.meta
    ensures var t' := SplitInternalTree(t, p, r);
            && t'.meta[p].lo < t'.meta[p].hi == t'.meta[r].lo < t'.meta[r].hi
            && DownOk(t', Orphan(p, r), p) && DownOk(t', Orphan(p, r), r)
  {
    var t' := SplitInternalTree(t, p, r);
    var n, half := t.pages[p], (|t.pages[p].kids| + 1) / 2;
    var lower, upper := t'.pages[p], t'.pages[r];
    ChildWithin(t, BadSize(p), p, half);
    SlotsIncrease(t, BadSize(p), p, 0, half);
    forall i | 0 <= i < |lower.kids|
      ensures ChildOk(t', Orphan(p, r), p, lower.kids[i], SlotLo(t'.meta[p], lower, i), SlotHi(t'.meta[p], lower, i))
    {
      ChildOf(t, BadSize(p), p, i);
      KidsDistinct(t, BadSize(p), p);
    }
    forall i | 0 <= i < |upper.kids|
      ensures ChildOk(t', Orphan(p, r), r, upper.kids[i], SlotLo(t'.meta[r], upper, i), SlotHi(t'.meta[r], upper, i))
    {
      ChildOf(t, BadSize(p), p, half + i);
    }
  }

  lemma SplitInternalOtherUp(t: Tree, p: PageID, r: PageID, q: PageID)
    requires Links(t, BadSize(p)) && p in t.meta && p in t.pages && t.pages[p].Internal?
    requires |t.pages[p].keys| == |t.pages[p].kids| >= 4
    requires r !in t.meta && 0 < r < INVALID_PAGE_ID
    requires q in t.meta && q != p
    ensures UpOk(SplitInternalTree(t, p, r), Orphan(p, r), q)
  {
    var kids, half := t.pages[p].kids, (|t.pages[p].kids| + 1) / 2;
    assert LinksOk(t, BadSize(p), p) && LinksOk(t, BadSize(p), q);
    KidsOf(t, BadSize(p), p, half);
    assert kids == kids[..half] + kids[half..];
  }

  lemma SplitInternalOther(t: Tree, p: PageID, r: PageID, q: PageID)
    requires Links(t, BadSize(p)) && p in t.meta && p in t.pages && t.pages[p].Internal?
    requires |t.pages[p].keys| == |t.pages[p].kids| >= 4
    requires r !in t.meta && 0 < r < INVALID_PAGE_ID
    requires q in t.meta && q != p
    ensures LinksOk(SplitInternalTree(t, p, r), Orphan(p, r), q)
  {
    SplitInternalOtherUp(t, p, r, q);
    assert LinksOk(t, BadSize(p), p) && LinksOk(t, BadSize(p), q);
    KidsOf(t, BadSize(p), p, (|t.pages[p].kids| + 1) / 2);
  }

  lemma SplitInternalLinks(t: Tree, p: PageID, r: PageID)
    requires Links(t, BadSize(p)) && p in t.meta && p in t.pages && t.pages[p].Internal?
    requires |t.pages[p].keys| == |t.pages[p].kids| >= 4
    requires r !in t.meta && 0 < r < INVALID_PAGE_ID
    ensures Links(SplitInternalTree(t, p, r), Orphan(p, r))
  {
    var t' := SplitInternalTree(t, p, r);
    SplitInternalDown(t, p, r);
    KidsOf(t, BadSize(p), p, (|t.pages[p].kids| + 1) / 2);
    assert LinksOk(t, BadSize(p), p);
    forall q | q in t'.meta ensures LinksOk(t', Orphan(p, r), q) {
      if q != r && q != p {
        SplitInternalOther(t, p, r, q);
      }
    }
  }

  /** Splitting an overfull internal page leaves its new sibling waiting for a parent entry. */
  lemma SplitInternal(t: Tree, C: Contents, p: PageID, r: PageID, lim: Limits)
    requires Inv(t, C, BadSize(p), lim) && p in t.meta && p in t.pages && t.pages[p].Internal?
    requires |t.pages[p].keys| == |t.pages[p].kids| == lim.internalMax
    requires r !in t.meta && 0 < r < INVALID_PAGE_ID
    ensures Inv(SplitInternalTree(t, p, r), C, Orphan(p, r), lim)
  {
    SplitInternalLinks(t, p, r);
    var t' := SplitInternalTree(t, p, r);
    forall q | q in t'.meta && q in t'.pages
      ensures LeafOk(t'.meta[q], t'.pages[q], C) && SizeOk(t', Orphan(p, r), q, lim)
    {
      if q != p && q != r {
        assert LeafOk(t.meta[q], t.pages[q], C) && SizeOk(t, BadSize(p), q, lim);
      }
    }
  }
}
