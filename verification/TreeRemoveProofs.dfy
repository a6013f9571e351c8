/** Each step of a removal, as a change of the tree value, and the invariant it re-establishes. */
module TreeRemoveProofs {
  import opened Basics
  import opened NodeOps
  import opened TreeInvariant

  lemma LeafDeleteOk(m: Meta, n: Node, C: Contents, key: int)
    requires n.Leaf? && LeafOk(m, n, C) && key in n.keys
    ensures LeafOk(m, LeafDelete(n, key), C - {key})
    ensures Size(LeafDelete(n, key)) == Size(n) - 1
  {
    var i := FirstIndexOf(n.keys, key);
    var n' := LeafDelete(n, key);
    forall j | 0 <= j < |n'.keys|
      ensures var h := if j < i then j else j + 1; n'.keys[j] == n.keys[h] && n'.vals[j] == n.vals[h] && n.keys[h] != key
    {
    }
    forall k | k in C && k != key && m.lo <= k < m.hi ensures k in n'.keys {
      assert k in n.keys;
      var j :| 0 <= j < |n.keys| && n.keys[j] == k;
      assert n'.keys[if j < i then j else j - 1] == k;
    }
  }

  /** Deleting a stored key: only that leaf's size may now be wrong. */
  lemma RemoveFromLeaf(t: Tree, C: Contents, p: PageID, key: int, lim: Limits)
    requires Inv(t, C, Sound, lim) && p in t.meta && p in t.pages && t.pages[p].Leaf?
    requires |t.pages[p].keys| == |t.pages[p].vals| && key in t.pages[p].keys
    ensures Inv(SetPage(t, p, LeafDelete(t.pages[p], key)), C - {key}, BadSize(p), lim)
  {
    var n := LeafDelete(t.pages[p], key);
    var t' := SetPage(t, p, n);
    LeafEditLinks(t, Sound, p, n, BadSize(p));
    assert LeafOk(t.meta[p], t.pages[p], C);
    forall q | q in t'.meta && q in t'.pages
      ensures LeafOk(t'.meta[q], t'.pages[q], C - {key}) && (q != p ==> SizeOk(t', BadSize(p), q, lim))
    {
      assert LinksOk(t, Sound, p) && LinksOk(t, Sound, q);
      assert LeafOk(t.meta[q], t.pages[q], C);
      if q == p {
        LeafDeleteOk(t.meta[p], t.pages[p], C, key);
      } else {
        assert SizeOk(t, Sound, q, lim);
        if t.pages[q].Leaf? && t.meta[q].lo <= key < t.meta[q].hi {
          Unique(t, Sound, p, q);
        }
      }
    }
  }

  /** Once the suspect page's size is in bounds again, nothing is wrong any more. */
  lemma Settle(t: Tree, C: Contents, p: PageID, lim: Limits)
    requires Inv(t, C, BadSize(p), lim) && p in t.pages && SizeOk(t, Sound, p, lim)
    ensures Inv(t, C, Sound, lim)
  {
    forall q | q in t.meta ensures LinksOk(t, Sound, q) {
      assert LinksOk(t, BadSize(p), q);
    }
    forall q | q in t.meta && q in t.pages ensures SizeOk(t, Sound, q, lim) {
      assert q != p ==> SizeOk(t, BadSize(p), q, lim);
    }
  }

  /** If the root is a leaf, it is the only page of the tree. */
  lemma OnlyRoot(t: Tree, d: Defect)
    requires Links(t, d) && !d.Orphan? && t.root in t.meta && t.root in t.pages && t.pages[t.root].Leaf?
    ensures t.meta.Keys == {t.root}
  {
    assert LinksOk(t, d, t.root);
    forall p | p in t.meta ensures p == t.root {
      assert LinksOk(t, d, p);
    }
  }

  /** Pages outside the tree can hold anything. */
  lemma IgnoreOthers(t: Tree, t': Tree, C: Contents, d: Defect, lim: Limits)
    requires Inv(t, C, d, lim) && t'.meta == t.meta && t'.root == t.root
    requires forall p :: p in t.meta && p in t.pages ==> p in t'.pages && t'.pages[p] == t.pages[p]
    ensures Inv(t', C, d, lim)
  {
    forall q | q in t'.meta ensures LinksOk(t', d, q) {
      assert LinksOk(t, d, q);
    }
    forall q | q in t'.meta && q in t'.pages ensures LeafOk(t'.meta[q], t'.pages[q], C) {
      assert LinksOk(t, d, q) && LeafOk(t.meta[q], t.pages[q], C);
    }
    forall q | q in t'.meta && q in t'.pages && d != BadSize(q) ensures SizeOk(t', d, q, lim) {
      assert LinksOk(t, d, q) && SizeOk(t, d, q, lim);
    }
  }

  // ---------- Merging two siblings ----------

  /** l and r are neighbouring children of q, r at position i. */
  ghost predicate Siblings(t: Tree, l: PageID, r: PageID, q: PageID, i: nat) {
    && q in t.meta && q in t.pages && t.pages[q].Internal? && |t.pages[q].keys| == |t.pages[q].kids|
    && 1 <= i < |t.pages[q].kids|
    && t.pages[q].kids[i - 1] == l && t.pages[q].kids[i] == r
  }

  /** The next child of node's parent, or the previous one if node is the last child. */
  ghost predicate IsNeighbour(t: Tree, node: PageID, s: PageID) {
    && node in t.pages && !t.pages[node].Blank? && t.pages[node].parent in t.pages && t.pages[t.pages[node].parent].Internal?
    && var kids := t.pages[t.pages[node].parent].kids;
    exists i {:trigger kids[i]} :: 0 <= i < |kids| && kids[i] == node &&
      if i + 1 < |kids| then s == kids[i + 1] else i >= 1 && s == kids[i - 1]
  }

  /** Two pages that fit on one are merged; otherwise one of them gives an entry to the other. */
  predicate FitOnOne(t: Tree, node: PageID, s: PageID, lim: Limits) {
    node in t.pages && s in t.pages && Size(t.pages[node]) + Size(t.pages[s]) < MaxSize(t.pages[node], lim)
  }

  /** A page has one neighbour only. */
  lemma OneNeighbour(t: Tree, d: Defect, node: PageID, q: PageID, i: nat, s: PageID)
    requires Links(t, d) && node in t.pages && !t.pages[node].Blank? && t.pages[node].parent == q && q in t.meta && q in t.pages
    requires t.pages[q].Internal? && |t.pages[q].keys| == |t.pages[q].kids| >= 2 && i < |t.pages[q].kids|
    requires t.pages[q].kids[i] == node && s == t.pages[q].kids[if i + 1 < |t.pages[q].kids| then i + 1 else i - 1]
    ensures forall x {:trigger IsNeighbour(t, node, x)} :: IsNeighbour(t, node, x) <==> x == s
  {
    KidsDistinct(t, d, q);
    var kids := t.pages[q].kids;
    forall x | IsNeighbour(t, node, x) ensures x == s {
      var j {:trigger kids[j]} :| 0 <= j < |kids| && kids[j] == node && if j + 1 < |kids| then x == kids[j + 1] else j >= 1 && x == kids[j - 1];
      assert i == j;
    }
  }

  /** The tree after r was emptied into l and its entry taken out of q. */
  function MergeTree(t: Tree, l: PageID, r: PageID, q: PageID, i: nat): Tree
    requires l in t.pages && r in t.pages && l in t.meta && r in t.meta && q in t.pages
    requires t.pages[q].Internal? && i < |t.pages[q].keys| == |t.pages[q].kids|
    requires (t.pages[l].Leaf? && t.pages[r].Leaf?) || (t.pages[l].Internal? && t.pages[r].Internal?)
    requires |t.pages[r].keys| >= 1 || t.pages[l].Leaf?
  {
    var nl, nr, nq := t.pages[l], t.pages[r], t.pages[q];
    Tree(Adopt(t.pages[l := Merged(nl, nr, nq.keys[i])][r := Drained(nr)][q := RemoveSlot(nq, i)], Kids(nr), l),
         (t.meta - {r})[l := t.meta[l].(hi := t.meta[r].hi)],
         t.root)
  }

  lemma RemoveSlots(m: Meta, n: Node, i: nat, j: nat)
    requires n.Internal? && 1 <= i < |n.keys| == |n.kids| && j + 1 < |n.kids|
    ensures var n' := RemoveSlot(n, i);
            && |n'.keys| == |n'.kids| == |n.kids| - 1
            && n'.kids[j] == n.kids[if j < i then j else j + 1]
            && SlotLo(m, n', j) == SlotLo(m, n, if j < i then j else j + 1)
            && SlotHi(m, n', j) == SlotHi(m, n, if j + 1 < i then j else j + 1)
  {
  }

  lemma SiblingsOk(t: Tree, d: Defect, l: PageID, r: PageID, q: PageID, i: nat)
    requires Links(t, d) && !d.Orphan? && Siblings(t, l, r, q, i)
    ensures LinksOk(t, d, q) && LinksOk(t, d, l) && LinksOk(t, d, r)
    ensures l != r && l != q && r != q && l != t.root && r != t.root
    ensures t.pages[l].parent == q && t.pages[r].parent == q
    ensures t.meta[l].level == t.meta[r].level == t.meta[q].level - 1
    ensures t.meta[l].hi == t.meta[r].lo == t.pages[q].keys[i]
    ensures t.meta[l].lo == SlotLo(t.meta[q], t.pages[q], i - 1)
    ensures t.meta[r].hi == SlotHi(t.meta[q], t.pages[q], i)
  {
    assert LinksOk(t, d, q);
    ChildOf(t, d, q, i - 1);
    ChildOf(t, d, q, i);
  }

  /** q's remaining slots after the merge. */
  lemma MergeDownParent(t: Tree, d: Defect, l: PageID, r: PageID, q: PageID, i: nat)
    requires Links(t, d) && !d.Orphan? && Siblings(t, l, r, q, i)
    requires l in t.pages && r in t.pages && l in t.meta && r in t.meta
    requires (t.pages[l].Leaf? && t.pages[r].Leaf?) || (t.pages[l].Internal? && t.pages[r].Internal?)
    requires |t.pages[r].keys| >= 1 || t.pages[l].Leaf?
    ensures DownOk(MergeTree(t, l, r, q, i), BadSize(q), q)
  {
    SiblingsOk(t, d, l, r, q, i);
    var t' := MergeTree(t, l, r, q, i);
    var m, n, n' := t.meta[q], t.pages[q], t'.pages[q];
    if t.pages[r].Internal? { KidsOf(t, d, r, 0); }
    forall j | 0 <= j < |n'.kids|
      ensures ChildOk(t', BadSize(q), q, n'.kids[j], SlotLo(m, n', j), SlotHi(m, n', j))
    {
      RemoveSlots(m, n, i, j);
      var h := if j < i then j else j + 1;
      ChildOf(t, d, q, h);
      KidsDistinct(t, d, q);
    }
  }

  /** The merged page's slots. */
  lemma MergeDownLeft(t: Tree, d: Defect, l: PageID, r: PageID, q: PageID, i: nat)
    requires Links(t, d) && !d.Orphan? && Siblings(t, l, r, q, i)
    requires l in t.pages && r in t.pages && l in t.meta && r in t.meta
    requires t.pages[l].Internal? && t.pages[r].Internal? && |t.pages[r].keys| >= 1
    ensures DownOk(MergeTree(t, l, r, q, i), BadSize(q), l)
  {
    SiblingsOk(t, d, l, r, q, i);
    var t' := MergeTree(t, l, r, q, i);
    var m', n' := t'.meta[l], t'.pages[l];
    var nl, nr := t.pages[l], t.pages[r];
    KidsOf(t, d, r, 0);
    forall j | 0 <= j < |n'.kids|
      ensures ChildOk(t', BadSize(q), l, n'.kids[j], SlotLo(m', n', j), SlotHi(m', n', j))
    {
      if j < |nl.kids| {
        ChildOf(t, d, l, j);
      } else {
        ChildOf(t, d, r, j - |nl.kids|);
      }
    }
  }

  lemma MergeOtherUp(t: Tree, d: Defect, l: PageID, r: PageID, q: PageID, i: nat, p: PageID)
    requires Links(t, d) && !d.Orphan? && Siblings(t, l, r, q, i)
    requires l in t.pages && r in t.pages && l in t.meta && r in t.meta
    requires (t.pages[l].Leaf? && t.pages[r].Leaf?) || (t.pages[l].Internal? && t.pages[r].Internal?)
    requires |t.pages[r].keys| >= 1 || t.pages[l].Leaf?
    requires p in t.meta && p != l && p != r && p != q
    ensures UpOk(MergeTree(t, l, r, q, i), BadSize(q), p)
  {
    SiblingsOk(t, d, l, r, q, i);
    assert LinksOk(t, d, p);
    var n := t.pages[q];
    if t.pages[r].Internal? { KidsOf(t, d, r, 0); }
    assert n.kids == n.kids[..i] + [r] + n.kids[i + 1..];
  }

  lemma MergeOtherDown(t: Tree, d: Defect, l: PageID, r: PageID, q: PageID, i: nat, p: PageID)
    requires Links(t, d) && !d.Orphan? && Siblings(t, l, r, q, i)
    requires l in t.pages && r in t.pages && l in t.meta && r in t.meta
    requires (t.pages[l].Leaf? && t.pages[r].Leaf?) || (t.pages[l].Internal? && t.pages[r].Internal?)
    requires |t.pages[r].keys| >= 1 || t.pages[l].Leaf?
    requires p in t.meta && p != l && p != r && p != q
    ensures DownOk(MergeTree(t, l, r, q, i), BadSize(q), p)
  {
    SiblingsOk(t, d, l, r, q, i);
    assert LinksOk(t, d, p);
    if t.pages[r].Internal? { KidsOf(t, d, r, 0); }
  }

  lemma MergeOther(t: Tree, d: Defect, l: PageID, r: PageID, q: PageID, i: nat, p: PageID)
    requires Links(t, d) && !d.Orphan? && Siblings(t, l, r, q, i)
    requires l in t.pages && r in t.pages && l in t.meta && r in t.meta
    requires (t.pages[l].Leaf? && t.pages[r].Leaf?) || (t.pages[l].Internal? && t.pages[r].Internal?)
    requires |t.pages[r].keys| >= 1 || t.pages[l].Leaf?
    requires p in t.meta && p != l && p != r && p != q
    ensures LinksOk(MergeTree(t, l, r, q, i), BadSize(q), p)
  {
    MergeOtherUp(t, d, l, r, q, i, p);
    MergeOtherDown(t, d, l, r, q, i, p);
    SiblingsOk(t, d, l, r, q, i);
    assert LinksOk(t, d, p);
    if t.pages[p].Leaf? && t.pages[p].next == r {
      Unique(t, d, p, l);
    }
  }

  lemma MergeLinks(t: Tree, d: Defect, l: PageID, r: PageID, q: PageID, i: nat)
    requires Links(t, d) && !d.Orphan? && Siblings(t, l, r, q, i)
    requires l in t.pages && r in t.pages && l in t.meta && r in t.meta
    requires (t.pages[l].Leaf? && t.pages[r].Leaf?) || (t.pages[l].Internal? && t.pages[r].Internal?)
    requires |t.pages[r].keys| >= 1 || t.pages[l].Leaf?
    ensures Links(MergeTree(t, l, r, q, i), BadSize(q))
  {
    SiblingsOk(t, d, l, r, q, i);
    var t' := MergeTree(t, l, r, q, i);
    MergeDownParent(t, d, l, r, q, i);
    if t.pages[l].Internal? { MergeDownLeft(t, d, l, r, q, i); KidsOf(t, d, r, 0); }
    var n := t.pages[q];
    assert n.kids == n.kids[..i] + [r] + n.kids[i + 1..];
    forall p | p in t'.meta ensures LinksOk(t', BadSize(q), p) {
      if p != l && p != q {
        MergeOther(t, d, l, r, q, i, p);
      }
    }
  }

  /** Merging two neighbours that fit on one page; afterwards only their parent's size may be wrong. */
  lemma Merge(t: Tree, C: Contents, x: PageID, l: PageID, r: PageID, q: PageID, i: nat, lim: Limits)
    requires Inv(t, C, BadSize(x), lim) && Siblings(t, l, r, q, i) && (x == l || x == r)
    requires l in t.pages && r in t.pages && l in t.meta && r in t.meta
    requires (t.pages[l].Leaf? && t.pages[r].Leaf?) || (t.pages[l].Internal? && t.pages[r].Internal?)
    requires |t.pages[r].keys| >= 1 || t.pages[l].Leaf?
    requires var total := Size(t.pages[l]) + Size(t.pages[r]);
             MinSize(t.pages[l], lim) <= total < MaxSize(t.pages[l], lim)
    ensures Inv(MergeTree(t, l, r, q, i), C, BadSize(q), lim)
    ensures Size(MergeTree(t, l, r, q, i).pages[q]) == Size(t.pages[q]) - 1
  {
    var d := BadSize(x);
    MergeLinks(t, d, l, r, q, i);
    SiblingsOk(t, d, l, r, q, i);
    var t' := MergeTree(t, l, r, q, i);
    assert t.pages[r].Internal? ==> q !in t.pages[r].kids && l !in t.pages[r].kids by {
      if t.pages[r].Internal? { KidsOf(t, d, r, 0); assert t.pages[r].kids[0..] == t.pages[r].kids; }
    }
    assert LeafOk(t.meta[l], t.pages[l], C) && LeafOk(t.meta[r], t.pages[r], C);
    var ml, mr, nl, nr := t.meta[l], t.meta[r], t.pages[l], t.pages[r];
    if nl.Leaf? {
      HoldsJoin(C, ml.lo, ml.hi, mr.hi, nl.keys, nl.vals, nr.keys, nr.vals);
    }
    forall p | p in t'.meta && p in t'.pages ensures LeafOk(t'.meta[p], t'.pages[p], C) {
      assert LeafOk(t.meta[p], t.pages[p], C);
    }
    forall p | p in t'.meta && p in t'.pages && p != q ensures SizeOk(t', BadSize(q), p, lim) {
      assert p != l ==> SizeOk(t, d, p, lim);
    }
  }

  // ---------- Moving the boundary between two siblings ----------

  /** The tree after the separator of neighbours l and r moved to b; `moved` are the children that changed sides. */
  function ShiftTree(t: Tree, l: PageID, nl: Node, r: PageID, nr: Node, q: PageID, i: nat, b: int,
                     moved: seq<PageID>, to: PageID): Tree
    requires l in t.meta && r in t.meta && q in t.pages && t.pages[q].Internal? && i < |t.pages[q].keys|
  {
    var nq := t.pages[q];
    Tree(Adopt(t.pages[l := nl][r := nr][q := Internal(nq.parent, nq.keys[i := b], nq.kids)], moved, to),
         t.meta[l := t.meta[l].(hi := b)][r := t.meta[r].(lo := b)],
         t.root)
  }

  /** What the new contents of the two pages must satisfy for the shift to be sound. */
  ghost predicate ShiftOk(t: Tree, d: Defect, l: PageID, nl: Node, r: PageID, nr: Node, q: PageID, i: nat, b: int,
                          moved: seq<PageID>, to: PageID)
  {
    && l in t.meta && r in t.meta && l in t.pages && r in t.pages && Siblings(t, l, r, q, i)
    && t.meta[l].lo < b < t.meta[r].hi
    && SelfOk(t.meta[l], nl) && SelfOk(t.meta[r], nr)
    && nl.parent == q && nr.parent == q
    && (nl.Leaf? ==> t.pages[l].Leaf? && nl.next == t.pages[l].next)
    && (nr.Leaf? ==> t.pages[r].Leaf? && nr.next == t.pages[r].next)
    && (to == l || to == r)
    && (forall c :: c in moved ==> c in Kids(t.pages[l]) || c in Kids(t.pages[r]))
    && (forall c :: c in Kids(t.pages[l]) ==> if c in moved && to == r then c in Kids(nr) else c in Kids(nl))
    && (forall c :: c in Kids(t.pages[r]) ==> if c in moved && to == l then c in Kids(nl) else c in Kids(nr))
    && var t' := ShiftTree(t, l, nl, r, nr, q, i, b, moved, to);
    DownOk(t', d, l) && DownOk(t', d, r)
  }

  /** The children of l and r: live pages with those parents, none of them l, r, q or the root. */
  lemma KidsOfBoth(t: Tree, d: Defect, l: PageID, r: PageID, q: PageID, i: nat)
    requires Links(t, d) && !d.Orphan? && Siblings(t, l, r, q, i)
    requires l in t.meta && r in t.meta && l in t.pages && r in t.pages
    ensures forall c :: c in Kids(t.pages[l]) ==>
              c in t.meta && c in t.pages && !t.pages[c].Blank? && t.pages[c].parent == l && c != t.root && c != l && c != r && c != q
    ensures forall c :: c in Kids(t.pages[r]) ==>
              c in t.meta && c in t.pages && !t.pages[c].Blank? && t.pages[c].parent == r && c != t.root && c != l && c != r && c != q
  {
    SiblingsOk(t, d, l, r, q, i);
    if t.pages[l].Internal? { KidsOf(t, d, l, 0); assert t.pages[l].kids[0..] == t.pages[l].kids; }
    if t.pages[r].Internal? { KidsOf(t, d, r, 0); assert t.pages[r].kids[0..] == t.pages[r].kids; }
  }

  lemma ShiftParent(t: Tree, d: Defect, l: PageID, nl: Node, r: PageID, nr: Node, q: PageID, i: nat, b: int,
                    moved: seq<PageID>, to: PageID)
    requires Links(t, d) && !d.Orphan? && ShiftOk(t, d, l, nl, r, nr, q, i, b, moved, to)
    ensures LinksOk(ShiftTree(t, l, nl, r, nr, q, i, b, moved, to), d, q)
  {
    SiblingsOk(t, d, l, r, q, i);
    KidsOfBoth(t, d, l, r, q, i);
    var t' := ShiftTree(t, l, nl, r, nr, q, i, b, moved, to);
    var m, n, n' := t.meta[q], t.pages[q], t'.pages[q];
    forall j | 0 <= j < |n'.kids| ensures ChildOk(t', d, q, n'.kids[j], SlotLo(m, n', j), SlotHi(m, n', j)) {
      ChildOf(t, d, q, j);
      KidsDistinct(t, d, q);
    }
  }

  lemma ShiftOtherUp(t: Tree, d: Defect, l: PageID, nl: Node, r: PageID, nr: Node, q: PageID, i: nat, b: int,
                   moved: seq<PageID>, to: PageID, p: PageID)
    requires Links(t, d) && !d.Orphan? && ShiftOk(t, d, l, nl, r, nr, q, i, b, moved, to)
    requires p in t.meta && p != l && p != r && p != q
    ensures UpOk(ShiftTree(t, l, nl, r, nr, q, i, b, moved, to), d, p)
  {
    SiblingsOk(t, d, l, r, q, i);
    KidsOfBoth(t, d, l, r, q, i);
    assert LinksOk(t, d, p);
  }

  lemma ShiftOther(t: Tree, d: Defect, l: PageID, nl: Node, r: PageID, nr: Node, q: PageID, i: nat, b: int,
                   moved: seq<PageID>, to: PageID, p: PageID)
    requires Links(t, d) && !d.Orphan? && ShiftOk(t, d, l, nl, r, nr, q, i, b, moved, to)
    requires p in t.meta && p != l && p != r && p != q
    ensures LinksOk(ShiftTree(t, l, nl, r, nr, q, i, b, moved, to), d, p)
  {
    ShiftOtherUp(t, d, l, nl, r, nr, q, i, b, moved, to, p);
    SiblingsOk(t, d, l, r, q, i);
    KidsOfBoth(t, d, l, r, q, i);
    assert LinksOk(t, d, p);
    if t.pages[p].Leaf? && t.pages[p].next == r {
      Unique(t, d, p, l);
    }
  }

  lemma ShiftLinks(t: Tree, d: Defect, l: PageID, nl: Node, r: PageID, nr: Node, q: PageID, i: nat, b: int,
                   moved: seq<PageID>, to: PageID)
    requires Links(t, d) && !d.Orphan? && ShiftOk(t, d, l, nl, r, nr, q, i, b, moved, to)
    ensures Links(ShiftTree(t, l, nl, r, nr, q, i, b, moved, to), d)
  {
    SiblingsOk(t, d, l, r, q, i);
    KidsOfBoth(t, d, l, r, q, i);
    var t' := ShiftTree(t, l, nl, r, nr, q, i, b, moved, to);
    ShiftParent(t, d, l, nl, r, nr, q, i, b, moved, to);
    if t.pages[l].Leaf? {
      assert LinksOk(t, d, t.pages[l].next);
      Unique(t, d, t.pages[l].next, r);
    }
    forall p | p in t'.meta ensures LinksOk(t', d, p) {
      if p != l && p != r && p != q {
        ShiftOther(t, d, l, nl, r, nr, q, i, b, moved, to, p);
      }
    }
  }

  /** Shifting a boundary repairs the one page whose size was off. */
  lemma Shift(t: Tree, C: Contents, x: PageID, l: PageID, nl: Node, r: PageID, nr: Node, q: PageID, i: nat, b: int,
              moved: seq<PageID>, to: PageID, lim: Limits)
    requires Inv(t, C, BadSize(x), lim) && (x == l || x == r)
    requires ShiftOk(t, BadSize(x), l, nl, r, nr, q, i, b, moved, to)
    requires LeafOk(t.meta[l].(hi := b), nl, C) && LeafOk(t.meta[r].(lo := b), nr, C)
    requires MinSize(nl, lim) <= Size(nl) < MaxSize(nl, lim) && MinSize(nr, lim) <= Size(nr) < MaxSize(nr, lim)
    ensures Inv(ShiftTree(t, l, nl, r, nr, q, i, b, moved, to), C, Sound, lim)
  {
    var d := BadSize(x);
    var t' := ShiftTree(t, l, nl, r, nr, q, i, b, moved, to);
    ShiftLinks(t, d, l, nl, r, nr, q, i, b, moved, to);
    SiblingsOk(t, d, l, r, q, i);
    KidsOfBoth(t, d, l, r, q, i);
    forall p | p in t'.meta && p in t'.pages ensures LeafOk(t'.meta[p], t'.pages[p], C) {
      assert LeafOk(t.meta[p], t.pages[p], C);
    }
    forall p | p in t'.meta && p in t'.pages && p != x ensures SizeOk(t', d, p, lim) {
      assert SizeOk(t, d, p, lim);
    }
    Settle(t', C, x, lim);
  }

  /** Taking one entry from the right neighbour. */
  function RotateLeftTree(t: Tree, l: PageID, r: PageID, q: PageID, i: nat): Tree
    requires l in t.meta && r in t.meta && l in t.pages && r in t.pages && Siblings(t, l, r, q, i)
    requires var nl, nr := t.pages[l], t.pages[r];
             (nl.Leaf? && nr.Leaf? && |nr.keys| == |nr.vals| >= 2) || (nl.Internal? && nr.Internal? && |nr.keys| == |nr.kids| >= 2)
  {
    var nl, nr, mid := t.pages[l], t.pages[r], t.pages[q].keys[i];
    ShiftTree(t, l, FirstToEndLeft(nl, nr, mid), r, WithoutFirst(nr), q, i, nr.keys[1],
              if nr.Internal? then [nr.kids[0]] else [], l)
  }

  /** Taking one entry from the left neighbour. */
  function RotateRightTree(t: Tree, l: PageID, r: PageID, q: PageID, i: nat): Tree
    requires l in t.meta && r in t.meta && l in t.pages && r in t.pages && Siblings(t, l, r, q, i)
    requires var nl, nr := t.pages[l], t.pages[r];
             (nl.Leaf? && nr.Leaf? && |nl.keys| == |nl.vals| >= 2)
             || (nl.Internal? && nr.Internal? && |nl.keys| == |nl.kids| >= 2 && |nr.keys| >= 1)
  {
    var nl, nr, mid := t.pages[l], t.pages[r], t.pages[q].keys[i];
    ShiftTree(t, l, WithoutLast(nl), r, LastToFrontRight(nl, nr, mid), q, i, nl.keys[|nl.keys| - 1],
              if nl.Internal? then [nl.kids[|nl.kids| - 1]] else [], r)
  }

  lemma RotateLeafLeft(t: Tree, C: Contents, x: PageID, l: PageID, r: PageID, q: PageID, i: nat, lim: Limits)
    requires Inv(t, C, BadSize(x), lim) && x == l && Siblings(t, l, r, q, i)
    requires l in t.meta && r in t.meta && l in t.pages && r in t.pages
    requires t.pages[l].Leaf? && t.pages[r].Leaf? && |t.pages[r].keys| == |t.pages[r].vals|
    requires |t.pages[l].keys| + 1 == lim.leafMax / 2 < |t.pages[r].keys|
    ensures Inv(RotateLeftTree(t, l, r, q, i), C, Sound, lim)
  {
    SiblingsOk(t, BadSize(x), l, r, q, i);
    var nl, nr := t.pages[l], t.pages[r];
    assert LeafOk(t.meta[l], nl, C) && LeafOk(t.meta[r], nr, C) && SizeOk(t, BadSize(x), r, lim);
    HoldsJoin(C, t.meta[l].lo, t.meta[l].hi, t.meta[r].hi, nl.keys, nl.vals, nr.keys, nr.vals);
    var h := |nl.keys| + 1;
    HoldsSplit(C, t.meta[l].lo, t.meta[r].hi, nl.keys + nr.keys, nl.vals + nr.vals, h);
    var ml, mr := FirstToEndLeft(nl, nr, t.pages[q].keys[i]), WithoutFirst(nr);
    assert (nl.keys + nr.keys)[..h] == ml.keys && (nl.vals + nr.vals)[..h] == ml.vals;
    assert (nl.keys + nr.keys)[h..] == mr.keys && (nl.vals + nr.vals)[h..] == mr.vals;
    Shift(t, C, x, l, ml, r, mr, q, i, nr.keys[1], [], l, lim);
  }

  lemma RotateLeafRight(t: Tree, C: Contents, x: PageID, l: PageID, r: PageID, q: PageID, i: nat, lim: Limits)
    requires Inv(t, C, BadSize(x), lim) && x == r && Siblings(t, l, r, q, i)
    requires l in t.meta && r in t.meta && l in t.pages && r in t.pages
    requires t.pages[l].Leaf? && t.pages[r].Leaf? && |t.pages[l].keys| == |t.pages[l].vals|
    requires |t.pages[r].keys| + 1 == lim.leafMax / 2 < |t.pages[l].keys|
    ensures Inv(RotateRightTree(t, l, r, q, i), C, Sound, lim)
  {
    SiblingsOk(t, BadSize(x), l, r, q, i);
    var nl, nr := t.pages[l], t.pages[r];
    assert LeafOk(t.meta[l], nl, C) && LeafOk(t.meta[r], nr, C) && SizeOk(t, BadSize(x), l, lim);
    HoldsJoin(C, t.meta[l].lo, t.meta[l].hi, t.meta[r].hi, nl.keys, nl.vals, nr.keys, nr.vals);
    var h := |nl.keys| - 1;
    HoldsSplit(C, t.meta[l].lo, t.meta[r].hi, nl.keys + nr.keys, nl.vals + nr.vals, h);
    var ml, mr := WithoutLast(nl), LastToFrontRight(nl, nr, t.pages[q].keys[i]);
    assert (nl.keys + nr.keys)[..h] == ml.keys && (nl.vals + nr.vals)[..h] == ml.vals;
    assert (nl.keys + nr.keys)[h..] == mr.keys && (nl.vals + nr.vals)[h..] == mr.vals;
    Shift(t, C, x, l, ml, r, mr, q, i, nl.keys[h], [], r, lim);
  }

  /** The separator that moves up from the right page lies strictly inside the interval of the two pages. */
  lemma RotateInternalLeftBounds(t: Tree, d: Defect, l: PageID, r: PageID, q: PageID, i: nat)
    requires Links(t, d) && !d.Orphan? && Siblings(t, l, r, q, i)
    requires l in t.meta && r in t.meta && l in t.pages && r in t.pages
    requires t.pages[r].Internal? && |t.pages[r].keys| == |t.pages[r].kids| >= 2
    ensures t.meta[l].lo < t.pages[r].keys[1] < t.meta[r].hi
  {
    SiblingsOk(t, d, l, r, q, i);
    SlotsIncrease(t, d, r, 0, 1);
    ChildWithin(t, d, r, 1);
  }

  /** The page that takes a child from its right neighbour. */
  lemma RotateInternalLeftTaker(t: Tree, d: Defect, l: PageID, r: PageID, q: PageID, i: nat)
    requires Links(t, d) && !d.Orphan? && Siblings(t, l, r, q, i)
    requires l in t.meta && r in t.meta && l in t.pages && r in t.pages
    requires t.pages[l].Internal? && t.pages[r].Internal? && |t.pages[r].keys| == |t.pages[r].kids| >= 2
    ensures DownOk(RotateLeftTree(t, l, r, q, i), d, l)
  {
    SiblingsOk(t, d, l, r, q, i);
    KidsOfBoth(t, d, l, r, q, i);
    var t' := RotateLeftTree(t, l, r, q, i);
    var nl, ml := t.pages[l], t'.pages[l];
    forall j | 0 <= j < |ml.kids|
      ensures ChildOk(t', d, l, ml.kids[j], SlotLo(t'.meta[l], ml, j), SlotHi(t'.meta[l], ml, j))
    {
      if j < |nl.kids| { ChildOf(t, d, l, j); } else { ChildOf(t, d, r, 0); }
    }
  }

  /** The page that gives its first child away. */
  lemma RotateInternalLeftGiver(t: Tree, d: Defect, l: PageID, r: PageID, q: PageID, i: nat)
    requires Links(t, d) && !d.Orphan? && Siblings(t, l, r, q, i)
    requires l in t.meta && r in t.meta && l in t.pages && r in t.pages
    requires t.pages[l].Internal? && t.pages[r].Internal? && |t.pages[r].keys| == |t.pages[r].kids| >= 2
    ensures DownOk(RotateLeftTree(t, l, r, q, i), d, r)
  {
    SiblingsOk(t, d, l, r, q, i);
    KidsOfBoth(t, d, l, r, q, i);
    KidsDistinct(t, d, r);
    var t' := RotateLeftTree(t, l, r, q, i);
    var mr := t'.pages[r];
    forall j | 0 <= j < |mr.kids|
      ensures ChildOk(t', d, r, mr.kids[j], SlotLo(t'.meta[r], mr, j), SlotHi(t'.meta[r], mr, j))
    {
      ChildOf(t, d, r, j + 1);
    }
  }

  lemma RotateInternalLeftShift(t: Tree, d: Defect, l: PageID, r: PageID, q: PageID, i: nat)
    requires Links(t, d) && !d.Orphan? && Siblings(t, l, r, q, i)
    requires l in t.meta && r in t.meta && l in t.pages && r in t.pages
    requires t.pages[l].Internal? && t.pages[r].Internal? && |t.pages[r].keys| == |t.pages[r].kids| >= 2
    ensures var nl, nr := t.pages[l], t.pages[r];
            ShiftOk(t, d, l, FirstToEndLeft(nl, nr, t.pages[q].keys[i]), r, WithoutFirst(nr), q, i, nr.keys[1], [nr.kids[0]], l)
  {
    SiblingsOk(t, d, l, r, q, i);
    RotateInternalLeftBounds(t, d, l, r, q, i);
    RotateInternalLeftTaker(t, d, l, r, q, i);
    RotateInternalLeftGiver(t, d, l, r, q, i);
    var nr := t.pages[r];
    assert nr.kids == [nr.kids[0]] + nr.kids[1..];
  }

  lemma RotateInternalLeft(t: Tree, C: Contents, x: PageID, l: PageID, r: PageID, q: PageID, i: nat, lim: Limits)
    requires Inv(t, C, BadSize(x), lim) && x == l && Siblings(t, l, r, q, i)
    requires l in t.meta && r in t.meta && l in t.pages && r in t.pages
    requires t.pages[l].Internal? && t.pages[r].Internal? && |t.pages[r].keys| == |t.pages[r].kids|
    requires |t.pages[l].kids| + 1 == lim.internalMax / 2 < |t.pages[r].kids|
    ensures Inv(RotateLeftTree(t, l, r, q, i), C, Sound, lim)
  {
    var d := BadSize(x);
    RotateInternalLeftShift(t, d, l, r, q, i);
    var nl, nr := t.pages[l], t.pages[r];
    assert SizeOk(t, d, r, lim);
    Shift(t, C, x, l, FirstToEndLeft(nl, nr, t.pages[q].keys[i]), r, WithoutFirst(nr), q, i, nr.keys[1], [nr.kids[0]], l, lim);
  }

  /** The separator that moves up from the left page lies strictly inside the interval of the two pages. */
  lemma RotateInternalRightBounds(t: Tree, d: Defect, l: PageID, r: PageID, q: PageID, i: nat)
    requires Links(t, d) && !d.Orphan? && Siblings(t, l, r, q, i)
    requires l in t.meta && r in t.meta && l in t.pages && r in t.pages
    requires t.pages[l].Internal? && |t.pages[l].keys| == |t.pages[l].kids| >= 2
    ensures t.meta[l].lo < t.pages[l].keys[|t.pages[l].keys| - 1] < t.meta[r].hi
  {
    SiblingsOk(t, d, l, r, q, i);
    var last := |t.pages[l].kids| - 1;
    SlotsIncrease(t, d, l, 0, last);
    ChildWithin(t, d, l, last);
  }

  /** The page that gives its last child away. */
  lemma RotateInternalRightGiver(t: Tree, d: Defect, l: PageID, r: PageID, q: PageID, i: nat)
    requires Links(t, d) && !d.Orphan? && Siblings(t, l, r, q, i)
    requires l in t.meta && r in t.meta && l in t.pages && r in t.pages
    requires t.pages[l].Internal? && t.pages[r].Internal? && |t.pages[l].keys| == |t.pages[l].kids| >= 2
    requires |t.pages[r].keys| == |t.pages[r].kids| >= 1
    ensures DownOk(RotateRightTree(t, l, r, q, i), d, l)
  {
    SiblingsOk(t, d, l, r, q, i);
    KidsOfBoth(t, d, l, r, q, i);
    KidsDistinct(t, d, l);
    var t' := RotateRightTree(t, l, r, q, i);
    var ml := t'.pages[l];
    forall j | 0 <= j < |ml.kids|
      ensures ChildOk(t', d, l, ml.kids[j], SlotLo(t'.meta[l], ml, j), SlotHi(t'.meta[l], ml, j))
    {
      ChildOf(t, d, l, j);
    }
  }

  /** The page that takes a child from its left neighbour. */
  lemma RotateInternalRightTaker(t: Tree, d: Defect, l: PageID, r: PageID, q: PageID, i: nat)
    requires Links(t, d) && !d.Orphan? && Siblings(t, l, r, q, i)
    requires l in t.meta && r in t.meta && l in t.pages && r in t.pages
    requires t.pages[l].Internal? && t.pages[r].Internal? && |t.pages[l].keys| == |t.pages[l].kids| >= 2
    requires |t.pages[r].keys| == |t.pages[r].kids| >= 1
    ensures DownOk(RotateRightTree(t, l, r, q, i), d, r)
  {
    SiblingsOk(t, d, l, r, q, i);
    KidsOfBoth(t, d, l, r, q, i);
    var t' := RotateRightTree(t, l, r, q, i);
    var last, mr := |t.pages[l].kids| - 1, t'.pages[r];
    forall j | 0 <= j < |mr.kids|
      ensures ChildOk(t', d, r, mr.kids[j], SlotLo(t'.meta[r], mr, j), SlotHi(t'.meta[r], mr, j))
    {
      if j == 0 { ChildOf(t, d, l, last); } else { ChildOf(t, d, r, j - 1); }
    }
  }

  lemma RotateInternalRightShift(t: Tree, d: Defect, l: PageID, r: PageID, q: PageID, i: nat)
    requires Links(t, d) && !d.Orphan? && Siblings(t, l, r, q, i)
    requires l in t.meta && r in t.meta && l in t.pages && r in t.pages
    requires t.pages[l].Internal? && t.pages[r].Internal? && |t.pages[l].keys| == |t.pages[l].kids| >= 2
    requires |t.pages[r].keys| == |t.pages[r].kids| >= 1
    ensures var nl, nr, last := t.pages[l], t.pages[r], |t.pages[l].kids| - 1;
            ShiftOk(t, d, l, WithoutLast(nl), r, LastToFrontRight(nl, nr, t.pages[q].keys[i]), q, i, nl.keys[last],
                    [nl.kids[last]], r)
  {
    SiblingsOk(t, d, l, r, q, i);
    RotateInternalRightBounds(t, d, l, r, q, i);
    RotateInternalRightTaker(t, d, l, r, q, i);
    RotateInternalRightGiver(t, d, l, r, q, i);
    var nl, last := t.pages[l], |t.pages[l].kids| - 1;
    assert nl.kids == nl.kids[..last] + [nl.kids[last]];
  }

  lemma RotateInternalRight(t: Tree, C: Contents, x: PageID, l: PageID, r: PageID, q: PageID, i: nat, lim: Limits)
    requires Inv(t, C, BadSize(x), lim) && x == r && Siblings(t, l, r, q, i)
    requires l in t.meta && r in t.meta && l in t.pages && r in t.pages
    requires t.pages[l].Internal? && t.pages[r].Internal? && |t.pages[l].keys| == |t.pages[l].kids|
    requires |t.pages[r].keys| == |t.pages[r].kids| >= 1
    requires |t.pages[r].kids| + 1 == lim.internalMax / 2 < |t.pages[l].kids|
    ensures Inv(RotateRightTree(t, l, r, q, i), C, Sound, lim)
  {
    var d := BadSize(x);
    RotateInternalRightShift(t, d, l, r, q, i);
    var nl, nr, last := t.pages[l], t.pages[r], |t.pages[l].kids| - 1;
    assert SizeOk(t, d, l, lim);
    Shift(t, C, x, l, WithoutLast(nl), r, LastToFrontRight(nl, nr, t.pages[q].keys[i]), q, i, nl.keys[last],
          [nl.kids[last]], r, lim);
  }

  // ---------- Shrinking the root ----------

  /** The tree whose root was dropped in favour of the root's only child c. */
  function ShrinkTree(t: Tree, c: PageID): Tree
    requires c in t.pages
  {
    Tree(t.pages[c := SetParent(t.pages[c], INVALID_PAGE_ID)], t.meta - {t.root}, c)
  }

  lemma ShrinkRoot(t: Tree, C: Contents, lim: Limits)
    requires Inv(t, C, BadSize(t.root), lim) && t.root in t.pages && t.pages[t.root].Internal?
    requires |t.pages[t.root].kids| == 1 && t.pages[t.root].kids[0] in t.pages
    ensures Inv(ShrinkTree(t, t.pages[t.root].kids[0]), C, Sound, lim)
  {
    var d := BadSize(t.root);
    var c := t.pages[t.root].kids[0];
    var t' := ShrinkTree(t, c);
    assert LinksOk(t, d, t.root);
    ChildOf(t, d, t.root, 0);
    forall p | p in t'.meta ensures LinksOk(t', Sound, p) {
      assert LinksOk(t, d, p);
      if p != c {
        var q, i := SlotOf(t, d, p);
        assert q != t.root && LinksOk(t, d, q);
      }
    }
    forall p | p in t'.meta && p in t'.pages ensures LeafOk(t'.meta[p], t'.pages[p], C) && SizeOk(t', Sound, p, lim) {
      assert LeafOk(t.meta[p], t.pages[p], C) && SizeOk(t, d, p, lim);
    }
  }

  /** A root leaf without entries means there are no contents. */
  lemma EmptyRoot(t: Tree, C: Contents, d: Defect, lim: Limits)
    requires Inv(t, C, d, lim) && !d.Orphan? && t.root in t.pages && t.pages[t.root].Leaf? && |t.pages[t.root].keys| == 0
    ensures C == map[]
  {
    assert LinksOk(t, d, t.root) && LeafOk(t.meta[t.root], t.pages[t.root], C);
    forall k ensures k !in C {
      assert k !in t.pages[t.root].keys;
    }
  }
}
