/** What the invariant means for a reader of the pages: walks from the root, without any of the ghost bookkeeping. */
module TreeTheorems {
  import opened Basics
  import opened NodeOps
  import opened TreeInvariant

  /** Following these child positions from page p ends at page q. */
  ghost predicate Walk(pages: map<PageID, Node>, p: PageID, steps: seq<nat>, q: PageID)
    decreases |steps|
  {
    if steps == [] then p == q
    else p in pages && pages[p].Internal? && steps[0] < |pages[p].kids| && Walk(pages, pages[p].kids[steps[0]], steps[1..], q)
  }

  /** Every walk stays in the tree, goes down one level a step, and narrows the interval. */
  lemma {:induction false} WalkDescends(t: Tree, p: PageID, steps: seq<nat>, q: PageID)
    requires Links(t, Sound) && p in t.meta && Walk(t.pages, p, steps, q)
    ensures LinksOk(t, Sound, q) && LinksOk(t, Sound, p)
    ensures t.meta[p].level == t.meta[q].level + |steps|
    ensures t.meta[p].lo <= t.meta[q].lo && t.meta[q].hi <= t.meta[p].hi
    decreases |steps|
  {
    assert LinksOk(t, Sound, p);
    if steps != [] {
      ChildOf(t, Sound, p, steps[0]);
      ChildWithin(t, Sound, p, steps[0]);
      WalkDescends(t, t.pages[p].kids[steps[0]], steps[1..], q);
    }
  }

  /** All leaves are equally far from the root. */
  lemma EqualDepth(t: Tree, C: Contents, lim: Limits, s1: seq<nat>, q1: PageID, s2: seq<nat>, q2: PageID)
    requires Inv(t, C, Sound, lim) && Walk(t.pages, t.root, s1, q1) && Walk(t.pages, t.root, s2, q2)
    requires q1 in t.pages && q2 in t.pages && t.pages[q1].Leaf? && t.pages[q2].Leaf?
    ensures |s1| == |s2|
  {
    WalkDescends(t, t.root, s1, q1);
    WalkDescends(t, t.root, s2, q2);
  }

  /** Keys found below child i of an internal page lie between its separators: K(i) <= k < K(i+1). */
  lemma Separators(t: Tree, C: Contents, lim: Limits, s: seq<nat>, p: PageID, i: nat, s': seq<nat>, q: PageID, k: int)
    requires Inv(t, C, Sound, lim) && Walk(t.pages, t.root, s, p)
    requires Walk(t.pages, p, [i] + s', q) && q in t.pages && t.pages[q].Leaf? && k in t.pages[q].keys
    ensures |t.pages[p].keys| == |t.pages[p].kids|
    ensures 0 < i ==> t.pages[p].keys[i] <= k
    ensures i + 1 < |t.pages[p].keys| ==> k < t.pages[p].keys[i + 1]
  {
    WalkDescends(t, t.root, s, p);
    ChildOf(t, Sound, p, i);
    var steps := [i] + s';
    assert steps[1..] == s';
    WalkDescends(t, t.pages[p].kids[i], s', q);
    InvAt(t, C, Sound, lim, q);
  }

  /** Every reached page names the page it was reached from as its parent; only the root has none. */
  lemma ParentPointers(t: Tree, C: Contents, lim: Limits, s: seq<nat>, p: PageID, i: nat)
    requires Inv(t, C, Sound, lim) && Walk(t.pages, t.root, s, p)
    requires p in t.pages && t.pages[p].Internal? && i < |t.pages[p].kids|
    ensures var c := t.pages[p].kids[i];
            && c in t.pages && !t.pages[c].Blank? && t.pages[c].parent == p
            && t.root in t.pages && !t.pages[t.root].Blank? && t.pages[t.root].parent == INVALID_PAGE_ID
  {
    WalkDescends(t, t.root, s, p);
    ChildOf(t, Sound, p, i);
    assert LinksOk(t, Sound, t.root);
  }

  /** Separators inside an internal page increase strictly (key 0 is unused). */
  lemma SeparatorsSorted(t: Tree, C: Contents, lim: Limits, s: seq<nat>, p: PageID, i: nat, j: nat)
    requires Inv(t, C, Sound, lim) && Walk(t.pages, t.root, s, p)
    requires p in t.pages && t.pages[p].Internal? && 1 <= i < j < |t.pages[p].keys|
    ensures t.pages[p].keys[i] < t.pages[p].keys[j]
  {
    WalkDescends(t, t.root, s, p);
    SlotsIncrease(t, Sound, p, i, j);
  }

  /** Every page reached from the root has a legal size. */
  lemma SizeBounds(t: Tree, C: Contents, lim: Limits, s: seq<nat>, p: PageID)
    requires Inv(t, C, Sound, lim) && Walk(t.pages, t.root, s, p)
    ensures p in t.pages
    ensures var n := t.pages[p];
            && !n.Blank? && |n.keys| == (if n.Leaf? then |n.vals| else |n.kids|)
            && |n.keys| < (if n.Leaf? then lim.leafMax else lim.internalMax)
            && (s != [] ==> |n.keys| >= if n.Leaf? then lim.leafMax / 2 else lim.internalMax / 2)
            && (s == [] ==> |n.keys| >= if n.Leaf? then 1 else 2)
  {
    WalkDescends(t, t.root, s, p);
    InvAt(t, C, Sound, lim, p);
  }

  /** Below any page, some leaf is in charge of each key of the page's interval. */
  lemma {:induction false} WalkTo(t: Tree, p: PageID, key: int) returns (steps: seq<nat>, q: PageID)
    requires Links(t, Sound) && p in t.meta && t.meta[p].lo <= key < t.meta[p].hi
    ensures Walk(t.pages, p, steps, q) && LinksOk(t, Sound, q) && t.pages[q].Leaf?
    ensures t.meta[q].lo <= key < t.meta[q].hi
    decreases t.meta[p].level
  {
    assert LinksOk(t, Sound, p);
    if t.pages[p].Leaf? {
      steps, q := [], p;
    } else {
      var i := LookupSlot(t.pages[p].keys, key);
      ChildOf(t, Sound, p, i);
      var rest;
      rest, q := WalkTo(t, t.pages[p].kids[i], key);
      steps := [i] + rest;
      assert steps[1..] == rest;
    }
  }

  /** Entry i of leaf q, reached from the root by these steps, is the pair (key, val). */
  ghost predicate StoredAt(t: Tree, steps: seq<nat>, q: PageID, i: int, key: int, val: RecordID) {
    && Walk(t.pages, t.root, steps, q) && q in t.pages && t.pages[q].Leaf?
    && 0 <= i < |t.pages[q].keys| == |t.pages[q].vals|
    && t.pages[q].keys[i] == key && t.pages[q].vals[i] == val
  }

  /** The tree reached from the root stores exactly the contents: nothing is lost and nothing is added. */
  lemma StoredIffInContents(t: Tree, C: Contents, lim: Limits, key: int, val: RecordID)
    requires Inv(t, C, Sound, lim)
    ensures (key in C && C[key] == val) <==> exists steps, q, i :: StoredAt(t, steps, q, i, key, val)
  {
    assert LinksOk(t, Sound, t.root);
    if key in C && C[key] == val {
      var steps, q := WalkTo(t, t.root, key);
      InvAt(t, C, Sound, lim, q);
      assert key in t.pages[q].keys;
      var i :| 0 <= i < |t.pages[q].keys| && t.pages[q].keys[i] == key;
      assert StoredAt(t, steps, q, i, key, val);
    }
    forall steps, q, i | StoredAt(t, steps, q, i, key, val) ensures key in C && C[key] == val {
      WalkDescends(t, t.root, steps, q);
      InvAt(t, C, Sound, lim, q);
    }
  }
}
