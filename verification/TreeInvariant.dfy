/**
 The B+ tree as a value: index pages by id, and for every page that belongs to the tree
 the height of its subtree and the half-open key interval it is responsible for.
 */
module TreeInvariant {
  import opened Basics
  import opened NodeOps

  datatype Meta = Meta(level: nat, lo: int, hi: int)

  datatype Tree = Tree(pages: map<PageID, Node>, meta: map<PageID, Meta>, root: PageID)

  type Contents = map<int, RecordID>

  /** What may be temporarily wrong between two steps of an update: one page has a size out of
      bounds, or `right` was split off `left` and has no entry in its parent yet. */
  datatype Defect = Sound | BadSize(page: PageID) | Orphan(left: PageID, right: PageID)

  /** The page capacities a tree was opened with. */
  datatype Limits = Limits(leafMax: nat, internalMax: nat)

  function MaxSize(n: Node, lim: Limits): nat {
    if n.Leaf? then lim.leafMax else lim.internalMax
  }

  function MinSize(n: Node, lim: Limits): nat {
    MaxSize(n, lim) / 2
  }

  predicate Sorted(s: seq<int>) {
    forall i, j :: 0 <= i < j < |s| ==> s[i] < s[j]
  }

  // ---------- Pages outside the tree ----------

  /** A page in use belongs to the tree, or the file has refused to delete it, or it is still to be deleted. */
  ghost predicate Accounted(t: Tree, refused: set<PageID>, pending: set<PageID>, p: PageID) {
    p in t.pages ==> p in t.meta || p in refused || p in pending
  }

  ghost predicate AllAccounted(t: Tree, refused: set<PageID>, pending: set<PageID>) {
    forall p {:trigger Accounted(t, refused, pending, p)} :: Accounted(t, refused, pending, p)
  }

  /** A step that puts its new pages in the tree, and sets aside those that leave it, loses no page. */
  lemma StillAccounted(t: Tree, t': Tree, refused: set<PageID>, pending: set<PageID>, pending': set<PageID>)
    requires AllAccounted(t, refused, pending) && pending <= pending'
    requires t'.pages.Keys <= t.pages.Keys + t'.meta.Keys && t.meta.Keys <= t'.meta.Keys + pending'
    ensures AllAccounted(t', refused, pending')
  {
    forall p ensures Accounted(t', refused, pending', p) {
      assert Accounted(t, refused, pending, p);
      assert p in t'.pages.Keys ==> p in t.pages.Keys || p in t'.meta.Keys;
      assert p in t.meta.Keys ==> p in t'.meta.Keys || p in pending';
    }
  }

  // ---------- Links between pages ----------

  predicate SelfOk(m: Meta, n: Node) {
    && 0 <= m.lo < m.hi <= KEY_SPACE
    && !n.Blank?
    && (n.Leaf? <==> m.level == 0)
    && (n.Leaf? ==> |n.keys| == |n.vals|)
    && (n.Internal? ==> |n.keys| == |n.kids| >= 1)
  }

  /** The upper end of the interval that c's slot in its parent stands for. */
  ghost function SpanHi(t: Tree, d: Defect, c: PageID): int
    requires c in t.meta
  {
    if d.Orphan? && c == d.left && d.right in t.meta then t.meta[d.right].hi else t.meta[c].hi
  }

  ghost predicate UpOk(t: Tree, d: Defect, p: PageID) {
    && p in t.meta && p in t.pages && !t.pages[p].Blank? && t.root in t.meta
    && if p == t.root then
      t.pages[p].parent == INVALID_PAGE_ID && t.meta[p].lo == 0 && SpanHi(t, d, p) == KEY_SPACE
    else if d.Orphan? && p == d.right then
      && d.left in t.meta && d.left in t.pages && !t.pages[d.left].Blank?
      && d.left != p
      && t.meta[p].level == t.meta[d.left].level <= t.meta[t.root].level
      && t.meta[p].lo == t.meta[d.left].hi
      && t.pages[p].parent == t.pages[d.left].parent
    else
      var q := t.pages[p].parent;
      && q in t.meta && q in t.pages && t.pages[q].Internal?
      && t.meta[p].level < t.meta[t.root].level
      && p in t.pages[q].kids
  }

  function SlotLo(m: Meta, n: Node, i: nat): int
    requires n.Internal? && i < |n.kids| == |n.keys|
  {
    if i == 0 then m.lo else n.keys[i]
  }

  function SlotHi(m: Meta, n: Node, i: nat): int
    requires n.Internal? && i < |n.kids| == |n.keys|
  {
    if i + 1 == |n.kids| then m.hi else n.keys[i + 1]
  }

  /** c hangs below q and is in charge of the keys from lo to hi. */
  ghost predicate ChildOk(t: Tree, d: Defect, q: PageID, c: PageID, lo: int, hi: int)
    requires q in t.meta
  {
    && c in t.meta && c in t.pages && !t.pages[c].Blank?
    && t.meta[c].level + 1 == t.meta[q].level
    && t.pages[c].parent == q
    && t.meta[c].lo == lo
    && SpanHi(t, d, c) == hi
  }

  ghost predicate DownOk(t: Tree, d: Defect, q: PageID) {
    && q in t.meta && q in t.pages
    && var m, n := t.meta[q], t.pages[q];
    n.Internal? ==>
      && |n.keys| == |n.kids|
      && forall i :: 0 <= i < |n.kids| ==> ChildOk(t, d, q, n.kids[i], SlotLo(m, n, i), SlotHi(m, n, i))
  }

  /** A leaf links to the leaf in charge of the keys that follow its own. */
  ghost predicate NextOk(t: Tree, p: PageID) {
    && p in t.meta && p in t.pages
    && var m, n := t.meta[p], t.pages[p];
    n.Leaf? ==>
      && (n.next == INVALID_PAGE_ID <==> m.hi == KEY_SPACE)
      && (n.next != INVALID_PAGE_ID ==>
            n.next in t.meta && t.meta[n.next].level == 0 && t.meta[n.next].lo == m.hi)
  }

  ghost predicate LinksOk(t: Tree, d: Defect, p: PageID) {
    && p in t.meta && p in t.pages && 0 < p < INVALID_PAGE_ID
    && SelfOk(t.meta[p], t.pages[p])
    && UpOk(t, d, p)
    && DownOk(t, d, p)
    && NextOk(t, p)
  }

  ghost predicate Links(t: Tree, d: Defect) {
    && t.root in t.meta
    && (d.Orphan? ==> d.left in t.meta && d.right in t.meta && d.right != t.root)
    && forall p {:trigger LinksOk(t, d, p)} :: p in t.meta ==> LinksOk(t, d, p)
  }

  // ---------- Contents and sizes ----------

  /** These entries are exactly the pairs of the contents whose keys lie in [lo, hi), in key order. */
  ghost predicate Holds(C: Contents, lo: int, hi: int, keys: seq<int>, vals: seq<RecordID>) {
    && |keys| == |vals|
    && Sorted(keys)
    && (forall i :: 0 <= i < |keys| ==> lo <= keys[i] < hi && keys[i] in C && C[keys[i]] == vals[i])
    && (forall k {:trigger k in keys} :: k in C && lo <= k < hi ==> k in keys)
  }

  /** A leaf stores exactly the pairs of the contents that fall into its interval. */
  ghost predicate LeafOk(m: Meta, n: Node, C: Contents) {
    n.Leaf? ==> Holds(C, m.lo, m.hi, n.keys, n.vals)
  }

  ghost predicate Leaves(t: Tree, C: Contents) {
    forall p {:trigger LeafOk(t.meta[p], t.pages[p], C)} :: p in t.meta && p in t.pages ==> LeafOk(t.meta[p], t.pages[p], C)
  }

  /** Non-root pages lie in [max/2, max-1]; a root leaf has an entry, a root internal page two children.
      A root that has just been split is about to become an ordinary page. */
  ghost predicate SizeOk(t: Tree, d: Defect, p: PageID, lim: Limits)
    requires p in t.pages
  {
    var n := t.pages[p];
    && Size(n) < MaxSize(n, lim)
    && (if p != t.root || (d.Orphan? && p == d.left) then MinSize(n, lim) <= Size(n)
        else if n.Leaf? then 1 <= Size(n) else 2 <= Size(n))
  }

  ghost predicate Sizes(t: Tree, d: Defect, lim: Limits) {
    forall p {:trigger SizeOk(t, d, p, lim)} ::
      p in t.meta && p in t.pages && d != BadSize(p) ==> SizeOk(t, d, p, lim)
  }

  predicate LimitsOk(lim: Limits) {
    lim.leafMax >= 2 && lim.internalMax >= 4
  }

  ghost predicate Inv(t: Tree, C: Contents, d: Defect, lim: Limits) {
    && LimitsOk(lim)
    && Links(t, d)
    && Leaves(t, C)
    && Sizes(t, d, lim)
    && (forall k :: k in C ==> 0 <= k < KEY_SPACE)
  }

  // ---------- Consequences of the links ----------

  /** What the invariant says about one page. */
  lemma InvAt(t: Tree, C: Contents, d: Defect, lim: Limits, p: PageID)
    requires Inv(t, C, d, lim) && p in t.meta
    ensures Links(t, d) && t.root in t.meta
    ensures LinksOk(t, d, p) && LeafOk(t.meta[p], t.pages[p], C)
    ensures d != BadSize(p) ==> SizeOk(t, d, p, lim)
  {
    assert LinksOk(t, d, p) && LeafOk(t.meta[p], t.pages[p], C);
    assert d != BadSize(p) ==> SizeOk(t, d, p, lim);
  }

  /** Slots of one page are ordered: an earlier slot ends no later than a later one starts. */
  lemma {:induction false} SlotsIncrease(t: Tree, d: Defect, q: PageID, i: nat, j: nat)
    requires Links(t, d) && q in t.meta && q in t.pages && t.pages[q].Internal?
    requires i < j < |t.pages[q].kids| == |t.pages[q].keys|
    ensures var m, n := t.meta[q], t.pages[q];
            SlotLo(m, n, i) < SlotHi(m, n, i) <= SlotLo(m, n, j)
    decreases j - i
  {
    SlotNonEmpty(t, d, q, i);
    if i + 1 < j {
      SlotsIncrease(t, d, q, i + 1, j);
    }
  }

  lemma SlotNonEmpty(t: Tree, d: Defect, q: PageID, i: nat)
    requires Links(t, d) && q in t.meta && q in t.pages && t.pages[q].Internal?
    requires i < |t.pages[q].kids| == |t.pages[q].keys|
    ensures SlotLo(t.meta[q], t.pages[q], i) < SlotHi(t.meta[q], t.pages[q], i)
  {
    assert LinksOk(t, d, q);
    var c := t.pages[q].kids[i];
    assert LinksOk(t, d, c);
    if d.Orphan? {
      assert LinksOk(t, d, d.right);
    }
  }

  /** A child's slot lies inside its parent's interval. */
  lemma ChildWithin(t: Tree, d: Defect, q: PageID, i: nat)
    requires Links(t, d) && q in t.meta && q in t.pages && t.pages[q].Internal?
    requires i < |t.pages[q].kids| == |t.pages[q].keys|
    ensures var m, n := t.meta[q], t.pages[q];
            m.lo <= SlotLo(m, n, i) < SlotHi(m, n, i) <= m.hi
  {
    SlotNonEmpty(t, d, q, i);
    var last := |t.pages[q].kids| - 1;
    if 0 < i { SlotsIncrease(t, d, q, 0, i); }
    if i < last { SlotsIncrease(t, d, q, i, last); SlotNonEmpty(t, d, q, last); }
  }

  /** The slot through which the parent of p points at p. */
  lemma SlotOf(t: Tree, d: Defect, p: PageID) returns (q: PageID, i: nat)
    requires Links(t, d) && p in t.meta && p != t.root && !(d.Orphan? && p == d.right)
    ensures p in t.pages && !t.pages[p].Blank? && t.pages[p].parent == q
    ensures q in t.meta && q in t.pages && t.pages[q].Internal? && i < |t.pages[q].kids| == |t.pages[q].keys|
    ensures t.pages[q].kids[i] == p && t.meta[q].level == t.meta[p].level + 1
    ensures t.meta[p].lo == SlotLo(t.meta[q], t.pages[q], i)
    ensures SpanHi(t, d, p) == SlotHi(t.meta[q], t.pages[q], i)
    ensures t.meta[q].level <= t.meta[t.root].level
  {
    assert LinksOk(t, d, p);
    q := t.pages[p].parent;
    assert LinksOk(t, d, q);
    i :| 0 <= i < |t.pages[q].kids| && t.pages[q].kids[i] == p;
  }

  /** Two pages of equal height whose intervals overlap are the same page. */
  lemma {:induction false} Unique(t: Tree, d: Defect, p: PageID, q: PageID)
    requires Links(t, d) && !d.Orphan?
    requires p in t.meta && q in t.meta && t.meta[p].level == t.meta[q].level
    requires t.meta[p].lo < t.meta[q].hi && t.meta[q].lo < t.meta[p].hi
    ensures p == q
    decreases t.meta[t.root].level - t.meta[p].level
  {
    if p == t.root || q == t.root {
      assert LinksOk(t, d, p) && LinksOk(t, d, q);
    } else {
      var pp, i := SlotOf(t, d, p);
      var qq, j := SlotOf(t, d, q);
      ChildWithin(t, d, pp, i);
      ChildWithin(t, d, qq, j);
      Unique(t, d, pp, qq);
      if i < j {
        SlotsIncrease(t, d, pp, i, j);
      } else if j < i {
        SlotsIncrease(t, d, pp, j, i);
      }
    }
  }

  // ---------- The children of a page ----------

  /** Child i is in charge of the keys of slot i, lives one level down and names this page as its parent. */
  lemma ChildOf(t: Tree, d: Defect, q: PageID, i: nat)
    requires Links(t, d) && q in t.meta && q in t.pages && t.pages[q].Internal?
    requires i < |t.pages[q].kids| == |t.pages[q].keys|
    ensures var c := t.pages[q].kids[i];
            && ChildOk(t, d, q, c, SlotLo(t.meta[q], t.pages[q], i), SlotHi(t.meta[q], t.pages[q], i))
            && LinksOk(t, d, c) && c != t.root
  {
    assert LinksOk(t, d, q);
    assert LinksOk(t, d, t.pages[q].kids[i]);
  }

  lemma KidsDistinct(t: Tree, d: Defect, q: PageID)
    requires Links(t, d) && q in t.meta && q in t.pages && t.pages[q].Internal?
    requires |t.pages[q].kids| == |t.pages[q].keys|
    ensures forall i, j :: 0 <= i < j < |t.pages[q].kids| ==> t.pages[q].kids[i] != t.pages[q].kids[j]
  {
    forall i, j | 0 <= i < j < |t.pages[q].kids| ensures t.pages[q].kids[i] != t.pages[q].kids[j] {
      ChildOf(t, d, q, i);
      ChildOf(t, d, q, j);
      SlotsIncrease(t, d, q, i, j);
    }
  }

  /** The pages a child list names: all live, below the page, never the root. */
  lemma KidsOf(t: Tree, d: Defect, q: PageID, from: nat)
    requires Links(t, d) && q in t.meta && q in t.pages && t.pages[q].Internal?
    requires from <= |t.pages[q].kids| == |t.pages[q].keys|
    ensures forall c :: c in t.pages[q].kids[from..] ==>
              c in t.meta && c in t.pages && !t.pages[c].Blank? && t.pages[c].parent == q && c != t.root && c != q
    ensures forall c :: c in t.pages[q].kids[from..] ==> c in t.pages[q].kids
  {
    var kids := t.pages[q].kids;
    forall c | c in kids[from..]
      ensures c in t.meta && c in t.pages && !t.pages[c].Blank? && t.pages[c].parent == q && c != t.root && c != q && c in kids
    {
      var i :| 0 <= i < |kids[from..]| && kids[from..][i] == c;
      ChildOf(t, d, q, from + i);
    }
  }

  // ---------- Changing a single page ----------

  /** A page that was not in the file is not in the tree. */
  lemma NotLive(t: Tree, d: Defect, id: PageID)
    requires Links(t, d) && id !in t.pages
    ensures id !in t.meta
  {
    assert id in t.meta ==> LinksOk(t, d, id);
  }

  function SetPage(t: Tree, p: PageID, n: Node): Tree {
    t.(pages := t.pages[p := n])
  }

  /** Changing only the entries of a leaf keeps every link. */
  lemma LeafEditLinks(t: Tree, d: Defect, p: PageID, n: Node, d': Defect)
    requires Links(t, d) && !d.Orphan? && !d'.Orphan? && p in t.meta && p in t.pages && t.pages[p].Leaf?
    requires n.Leaf? && |n.keys| == |n.vals| && n.parent == t.pages[p].parent && n.next == t.pages[p].next
    ensures Links(SetPage(t, p, n), d')
  {
    var t' := SetPage(t, p, n);
    forall q | q in t'.meta ensures LinksOk(t', d', q) {
      assert LinksOk(t, d, q);
    }
  }

  // ---------- Splitting and joining entry lists ----------

  lemma HoldsSplit(C: Contents, lo: int, hi: int, keys: seq<int>, vals: seq<RecordID>, h: nat)
    requires Holds(C, lo, hi, keys, vals) && 0 < h < |keys|
    ensures lo < keys[h] < hi
    ensures Holds(C, lo, keys[h], keys[..h], vals[..h])
    ensures Holds(C, keys[h], hi, keys[h..], vals[h..])
  {
    var mid := keys[h];
    assert lo <= keys[0] < mid;
    forall k | k in C && lo <= k < hi ensures if k < mid then k in keys[..h] else k in keys[h..] {
      assert k in keys;
      var j :| 0 <= j < |keys| && keys[j] == k;
      assert if j < h then keys[..h][j] == k else keys[h..][j - h] == k;
    }
  }

  lemma HoldsJoin(C: Contents, lo: int, mid: int, hi: int,
                  keys1: seq<int>, vals1: seq<RecordID>, keys2: seq<int>, vals2: seq<RecordID>)
    requires lo <= mid <= hi
    requires Holds(C, lo, mid, keys1, vals1) && Holds(C, mid, hi, keys2, vals2)
    ensures Holds(C, lo, hi, keys1 + keys2, vals1 + vals2)
  {
    var keys, vals, n := keys1 + keys2, vals1 + vals2, |keys1|;
    forall i | 0 <= i < |keys|
      ensures keys[i] == (if i < n then keys1[i] else keys2[i - n])
      ensures vals[i] == (if i < n then vals1[i] else vals2[i - n])
      ensures lo <= keys[i] < hi && keys[i] in C && C[keys[i]] == vals[i]
      ensures i < n <==> keys[i] < mid
    {
    }
    assert Sorted(keys) by {
      forall i, j | 0 <= i < j < |keys| ensures keys[i] < keys[j] {
        if j < n || n <= i {
        } else {
          assert keys[i] < mid <= keys[j];
        }
      }
    }
    forall k | k in C && lo <= k < hi ensures k in keys {
      assert if k < mid then k in keys1 else k in keys2;
    }
  }
}
