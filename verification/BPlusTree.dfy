/** The B+ tree over the index file (src/index/b_plus_tree.cpp). */
module BPlusTree {
  import opened Basics
  import opened NodeOps
  import opened TreeInvariant
  import opened TreeInsertProofs
  import opened TreeRemoveProofs
  import opened PageFile

  lemma Overwrite(m: map<PageID, Node>, k: PageID, before: Node, p: PageID, x: Node, after: Node)
    ensures m[k := before][p := x][k := after] == m[p := x][k := after]
  {
  }

  lemma Overwritten(m: map<PageID, Node>, k: PageID, before: Node, after: Node)
    ensures m[k := before][k := after] == m[k := after]
  {
  }

  class BPlusTree {
    const file: PageFile<Node>
    const leafMaxSize: nat
    const internalMaxSize: nat
    /** The in-memory root id, and its copy in the header page of the index file. */
    var rootPageID: PageID
    var headerRootPageID: PageID
    /** The pages of the tree, and the pairs it stores. */
    ghost var meta: map<PageID, Meta>
    ghost var contents: Contents
    /** The pages that have left the tree but could not be deleted. */
    ghost var refused: set<PageID>

    function Lim(): Limits {
      // an internal page never holds fewer than four entries at capacity
      Limits(leafMaxSize, if internalMaxSize < 4 then 4 else internalMaxSize)
    }

    ghost function Snapshot(): Tree
      reads this, file
    {
      Tree(file.used, meta, rootPageID)
    }

    /** Everything holds except for the given defect. */
    ghost predicate State(d: Defect)
      reads this, file
    {
      && file.Valid() && headerRootPageID == rootPageID != INVALID_PAGE_ID
      && Inv(Snapshot(), contents, d, Lim())
    }

    /** Every page in use is part of the tree, or could not be deleted, or is still to be deleted. */
    ghost predicate NoStrays(pending: set<PageID>)
      reads this, file
    {
      AllAccounted(Snapshot(), refused, pending)
    }

    ghost predicate Valid()
      reads this, file
    {
      Structured() && NoStrays({})
    }

    ghost predicate Structured()
      reads this, file
    {
      && file.Valid() && headerRootPageID == rootPageID && LimitsOk(Lim())
      && if rootPageID == INVALID_PAGE_ID then meta == map[] && contents == map[]
         else Inv(Snapshot(), contents, Sound, Lim())
    }

    /** As long as no deletion was refused, the pages in use are exactly those of the tree. */
    lemma AllInTree()
      requires Valid() && refused == {}
      ensures file.used.Keys == meta.Keys
    {
      forall p ensures p in file.used <==> p in meta {
        assert Accounted(Snapshot(), refused, {}, p);
        if p in meta {
          assert LinksOk(Snapshot(), Sound, p);
        }
      }
    }

    /** The number of levels. */
    ghost function Height(): nat
      reads this, file
    {
      if rootPageID in meta then meta[rootPageID].level + 1 else 0
    }

    constructor (file: PageFile<Node>, leafMaxSize: nat, internalMaxSize: nat)
      requires leafMaxSize >= 2 && file.Valid()
      ensures Valid() && contents == map[] && this.file == file
      ensures this.leafMaxSize == leafMaxSize && this.internalMaxSize == internalMaxSize
      ensures refused == file.used.Keys
    {
      this.file := file;
      this.leafMaxSize, this.internalMaxSize := leafMaxSize, internalMaxSize;
      rootPageID, headerRootPageID := INVALID_PAGE_ID, INVALID_PAGE_ID;
      meta, contents, refused := map[], map[], file.used.Keys;
      new;
      forall p ensures Accounted(Snapshot(), refused, {}, p) {
        assert p in file.used ==> p in file.used.Keys;
      }
    }

    /** Opens the tree that another object left behind in the file: all that is read is the root id in the header. */
    constructor Reopen(closed: BPlusTree)
      requires closed.Valid()
      ensures Valid() && contents == closed.contents && file == closed.file
      ensures rootPageID == closed.rootPageID && Snapshot() == closed.Snapshot() && refused == closed.refused
    {
      file := closed.file;
      leafMaxSize, internalMaxSize := closed.leafMaxSize, closed.internalMaxSize;
      rootPageID, headerRootPageID := closed.headerRootPageID, closed.headerRootPageID;
      meta, contents, refused := closed.meta, closed.contents, closed.refused;
    }

    predicate IsEmpty()
      reads this
    {
      rootPageID == INVALID_PAGE_ID
    }

    method UpdateRootPageID()
      modifies this`headerRootPageID
      ensures headerRootPageID == rootPageID
    {
      headerRootPageID := rootPageID;
    }

    // ---------- Search ----------

    /** The leaf in charge of the key, or the leftmost leaf. None stands for the "tree is empty" exception. */
    method FindLeafPage(key: int, leftMost: bool) returns (r: Option<PageID>)
      requires Valid() && 0 <= key < KEY_SPACE
      ensures r == None <==> rootPageID == INVALID_PAGE_ID
      ensures r.Some? ==>
                var p := r.value;
                && LinksOk(Snapshot(), Sound, p) && file.used[p].Leaf? && LeafOk(meta[p], file.used[p], contents)
                && (if leftMost then meta[p].lo == 0 else meta[p].lo <= key < meta[p].hi)
    {
      if IsEmpty() {
        return None;
      }
      var cur := rootPageID;
      ghost var t := Snapshot();
      assert LinksOk(t, Sound, cur);
      while !file.used[cur].Leaf?
        invariant LinksOk(t, Sound, cur)
        invariant if leftMost then meta[cur].lo == 0 else meta[cur].lo <= key < meta[cur].hi
        decreases meta[cur].level
      {
        var n := file.used[cur];
        var i := if leftMost then 0 else LookupSlot(n.keys, key);
        ChildOf(t, Sound, cur, i);
        cur := n.kids[i];
      }
      assert LeafOk(t.meta[cur], t.pages[cur], contents);
      return Some(cur);
    }

    method GetValue(key: int) returns (r: Option<RecordID>)
      requires Valid() && 0 <= key < KEY_SPACE
      ensures r == if key in contents then Some(contents[key]) else None
    {
      if IsEmpty() {
        return None;
      }
      var leaf := FindLeafPage(key, false);
      var n := file.used[leaf.value];
      r := LeafLookup(n, key);
      assert key in contents ==> key in n.keys;
    }

    // ---------- Insertion ----------

    /** Adds the pair unless the key is taken. */
    method Insert(key: int, value: RecordID) returns (ok: bool)
      requires Valid() && 0 <= key < KEY_SPACE && file.Room() >= Height() + 1
      modifies this, file
      ensures Valid() && file.Room() >= old(file.Room()) - old(Height()) - 1 && refused == old(refused)
      ensures ok <==> key !in old(contents)
      ensures contents == if ok then old(contents)[key := value] else old(contents)
    {
      if IsEmpty() {
        StartNewTree(key, value);
        return true;
      }
      ok := InsertIntoLeaf(key, value);
    }

    method StartNewTree(key: int, value: RecordID)
      requires Valid() && rootPageID == INVALID_PAGE_ID && 0 <= key < KEY_SPACE && file.Room() >= 1
      modifies this, file
      ensures Valid() && contents == map[key := value] && file.Room() == old(file.Room()) - 1 && refused == old(refused)
    {
      var id := file.New(Blank);
      file.WriteBack(file.used[id := LeafInsert(Leaf(INVALID_PAGE_ID, INVALID_PAGE_ID, [], []), key, value)]);
      rootPageID := id;
      UpdateRootPageID();
      meta, contents := map[id := Meta(0, 0, KEY_SPACE)], map[key := value];
      FirstLeaf(file.used, id, key, value, Lim());
      StillAccounted(old(Snapshot()), Snapshot(), refused, {}, {});
    }

    method InsertIntoLeaf(key: int, value: RecordID) returns (ok: bool)
      requires Valid() && rootPageID != INVALID_PAGE_ID && 0 <= key < KEY_SPACE && file.Room() >= Height() + 1
      modifies this, file
      ensures Valid() && file.Room() >= old(file.Room()) - old(Height()) - 1 && refused == old(refused)
      ensures ok <==> key !in old(contents)
      ensures contents == if ok then old(contents)[key := value] else old(contents)
    {
      var found := FindLeafPage(key, false);
      var leaf := found.value;
      var n := file.used[leaf];
      assert key in contents ==> key in n.keys;
      if LeafLookup(n, key) != None {
        return false;
      }
      AddToLeaf(Snapshot(), contents, leaf, key, value, Lim());
      assert SizeOk(Snapshot(), Sound, leaf, Lim());
      LeafInsertOk(meta[leaf], n, contents, key, value);
      n := LeafInsert(n, key, value);
      file.WriteBack(file.used[leaf := n]);
      contents := contents[key := value];
      StillAccounted(old(Snapshot()), Snapshot(), refused, {}, {});
      if leafMaxSize <= Size(n) {
        ghost var t := Snapshot();
        var newLeaf := SplitLeafPage(leaf);
        NotLive(t, BadSize(leaf), newLeaf);
        SplitLeaf(t, contents, leaf, newLeaf, Lim());
        StillAccounted(t, Snapshot(), refused, {}, {});
        InsertIntoParent(leaf, file.used[newLeaf].keys[0], newLeaf);
      } else {
        Settle(Snapshot(), contents, leaf, Lim());
      }
      return true;
    }

    /** Moves the upper half of a full leaf to a new page and links that page into the leaf chain. */
    method SplitLeafPage(leaf: PageID) returns (newLeaf: PageID)
      requires file.Valid() && file.Room() >= 1 && leaf in meta && leaf in file.used && file.used[leaf].Leaf?
      requires |file.used[leaf].keys| == |file.used[leaf].vals| >= leafMaxSize >= 2
      modifies `meta, file
      ensures file.Valid() && file.Room() == old(file.Room()) - 1
      ensures newLeaf !in old(file.used) && 0 < newLeaf < INVALID_PAGE_ID
      ensures var n := old(file.used)[leaf];
              Snapshot() == SplitTree(old(Snapshot()), leaf, LowerLeaf(n, newLeaf), newLeaf, UpperLeaf(n), UpperLeaf(n).keys[0])
    {
      var n := file.used[leaf];
      newLeaf := file.New(Blank);
      var lower, upper := LowerHalf(n), UpperHalf(n);
      upper := Leaf(upper.parent, lower.next, upper.keys, upper.vals);
      lower := Leaf(lower.parent, newLeaf, lower.keys, lower.vals);
      file.WriteBack(file.used[leaf := lower][newLeaf := upper]);
      meta := SplitTree(old(Snapshot()), leaf, lower, newLeaf, upper, upper.keys[0]).meta;
    }

    /** Moves the upper half of a full internal page to a new page, which becomes the parent of the children that moved. */
    method SplitInternalPage(node: PageID) returns (newNode: PageID)
      requires file.Valid() && file.Room() >= 1 && node in meta && node in file.used && file.used[node].Internal?
      requires |file.used[node].keys| == |file.used[node].kids| >= Lim().internalMax
      requires forall c :: c in UpperHalf(file.used[node]).kids ==> c in file.used
      modifies `meta, file
      ensures file.Valid() && file.Room() == old(file.Room()) - 1
      ensures newNode !in old(file.used) && 0 < newNode < INVALID_PAGE_ID
      ensures Snapshot() == SplitInternalTree(old(Snapshot()), node, newNode)
    {
      var n := file.used[node];
      newNode := file.New(Blank);
      var upper := UpperHalf(n);
      var pages := file.used[node := LowerHalf(n)][newNode := upper];
      Overwrite(old(file.used), newNode, Blank, node, LowerHalf(n), upper);
      assert forall c :: c in upper.kids ==> c in pages;
      pages := AdoptAll(pages, upper.kids, newNode);
      ghost var t' := SplitInternalTree(old(Snapshot()), node, newNode);
      file.WriteBack(pages);
      meta := t'.meta;
    }

    /** Sets the parent of each of the pages, one fetch at a time. */
    method AdoptAll(pages: map<PageID, Node>, kids: seq<PageID>, q: PageID) returns (r: map<PageID, Node>)
      requires forall c :: c in kids ==> c in pages
      ensures r == Adopt(pages, kids, q)
    {
      r := pages;
      for i := 0 to |kids|
        invariant r == Adopt(pages, kids[..i], q)
      {
        assert kids[i] in kids;
        AdoptNext(pages, kids[..i], kids[i], q);
        assert kids[..i + 1] == kids[..i] + [kids[i]];
        r := r[kids[i] := SetParent(r[kids[i]], q)];
      }
      assert kids[..|kids|] == kids;
    }

    /** Puts a split root and its new sibling under a new root page. */
    method GrowRoot(oldNode: PageID, key: int, newNode: PageID) returns (id: PageID)
      requires file.Valid() && file.Room() >= 1 && oldNode in file.used && newNode in file.used
      requires oldNode in meta && newNode in meta && key == meta[newNode].lo
      modifies `rootPageID, `headerRootPageID, `meta, file
      ensures file.Valid() && headerRootPageID == rootPageID == id && contents == old(contents)
      ensures id !in old(file.used) && 0 < id < INVALID_PAGE_ID
      ensures Snapshot() == NewRootTree(old(Snapshot()), oldNode, newNode, id)
      ensures file.Room() == old(file.Room()) - 1
    {
      id := file.New(Blank);
      var root := Internal(INVALID_PAGE_ID, [ZERO_KEY, key], [oldNode, newNode]);
      var pages := AdoptAll(file.used[id := root], [oldNode, newNode], id);
      ghost var t, t' := old(Snapshot()), NewRootTree(old(Snapshot()), oldNode, newNode, id);
      NewRootPages(t, oldNode, newNode, id);
      Overwritten(t.pages, id, Blank, root);
      file.WriteBack(pages);
      rootPageID := id;
      UpdateRootPageID();
      meta := t'.meta;
    }

    /** Registers a freshly split-off page with the parent of the page it came from, splitting upwards as needed. */
    method InsertIntoParent(oldNode: PageID, key: int, newNode: PageID)
      requires State(Orphan(oldNode, newNode)) && oldNode in meta && newNode in meta && key == meta[newNode].lo
      requires NoStrays({})
      requires rootPageID in meta && meta[oldNode].level <= meta[rootPageID].level
      requires file.Room() >= meta[rootPageID].level - meta[oldNode].level + 1
      modifies this, file
      ensures State(Sound) && contents == old(contents) && NoStrays({}) && refused == old(refused)
      ensures file.Room() >= old(file.Room() - (meta[rootPageID].level - meta[oldNode].level + 1))
      decreases meta[rootPageID].level - meta[oldNode].level, 1
    {
      ghost var t, d := Snapshot(), Orphan(oldNode, newNode);
      InvAt(t, contents, d, Lim(), oldNode);
      InvAt(t, contents, d, Lim(), newNode);
      var parent := file.used[oldNode].parent;
      if parent == INVALID_PAGE_ID {
        assert LinksOk(t, d, parent) || oldNode == rootPageID;
        var id := GrowRoot(oldNode, key, newNode);
        NotLive(t, d, id);
        NewRoot(t, contents, oldNode, newNode, id, Lim());
        StillAccounted(t, Snapshot(), refused, {}, {});
      } else {
        InvAt(t, contents, d, Lim(), parent);
        Register(t, contents, oldNode, newNode, parent, Lim());
        file.WriteBack(file.used[parent := InsertNodeAfter(file.used[parent], oldNode, key, newNode)]);
        StillAccounted(t, Snapshot(), refused, {}, {});
        if Lim().internalMax <= Size(file.used[parent]) {
          SplitParent(parent);
        } else {
          Settle(Snapshot(), contents, parent, Lim());
        }
      }
    }

    /** Splits a parent that has become full and registers the new page one level up. */
    method SplitParent(parent: PageID)
      requires State(BadSize(parent)) && parent in meta && parent in file.used && file.used[parent].Internal? && NoStrays({})
      requires |file.used[parent].keys| == |file.used[parent].kids| == Lim().internalMax
      requires rootPageID in meta && meta[parent].level <= meta[rootPageID].level
      requires file.Room() >= meta[rootPageID].level - meta[parent].level + 2
      modifies this, file
      ensures State(Sound) && contents == old(contents) && NoStrays({}) && refused == old(refused)
      ensures file.Room() >= old(file.Room() - (meta[rootPageID].level - meta[parent].level + 2))
      decreases meta[rootPageID].level - meta[parent].level, 2
    {
      ghost var t := Snapshot();
      KidsOf(t, BadSize(parent), parent, (Size(file.used[parent]) + 1) / 2);
      var newParent := SplitInternalPage(parent);
      NotLive(t, BadSize(parent), newParent);
      SplitInternal(t, contents, parent, newParent, Lim());
      StillAccounted(t, Snapshot(), refused, {}, {});
      InsertIntoParent(parent, file.used[newParent].keys[0], newParent);
    }

    // ---------- Removal ----------

    /** Removes the key and returns the value that was stored under it. */
    method Remove(key: int) returns (r: Option<RecordID>)
      requires Valid() && 0 <= key < KEY_SPACE
      modifies this, file
      ensures Valid() && file.Room() >= old(file.Room())
      ensures r == if key in old(contents) then Some(old(contents)[key]) else None
      ensures contents == old(contents) - {key}
    {
      if IsEmpty() {
        return None;
      }
      var found := FindLeafPage(key, false);
      var leaf := found.value;
      var n := file.used[leaf];
      assert key in contents ==> key in n.keys;
      r := LeafLookup(n, key);
      if r == None {
        return;
      }
      InvAt(Snapshot(), contents, Sound, Lim(), leaf);
      RemoveFromLeaf(Snapshot(), contents, leaf, key, Lim());
      LeafDeleteOk(meta[leaf], n, contents, key);
      n := LeafDelete(n, key);
      file.WriteBack(file.used[leaf := n]);
      contents := contents - {key};
      StillAccounted(old(Snapshot()), Snapshot(), refused, {}, {});
      if Size(n) < MinSize(n, Lim()) {
        var needDelete := CoalesceOrRedistribute(leaf, {});
        if needDelete {
          var _ := DeleteIndexPage(leaf, {} + {leaf}, {});
        }
      } else {
        Settle(Snapshot(), contents, leaf, Lim());
      }
    }

    /** Gives a page back to the file. The file refuses while another pin is held; the page then just stays unused. */
    method DeleteIndexPage(id: PageID, ghost pending: set<PageID>, ghost rest: set<PageID>) returns (exclusive: bool)
      requires Structured() && id !in meta && NoStrays(pending) && pending <= rest + {id}
      modifies `refused, file
      ensures Structured() && NoStrays(rest) && file.Room() >= old(file.Room())
      ensures if exclusive then refused == old(refused) && id !in file.used else file.used == old(file.used)
      ensures refused == old(refused) || (refused == old(refused) + {id} && id in file.used)
    {
      ghost var t := Snapshot();
      exclusive := *;
      var deleted := file.Delete(id, exclusive);
      if !deleted && id in file.used {
        refused := refused + {id};
      }
      forall p ensures Accounted(Snapshot(), refused, rest, p) {
        assert Accounted(t, old(refused), pending, p);
      }
      if rootPageID != INVALID_PAGE_ID {
        IgnoreOthers(t, Snapshot(), contents, Sound, Lim());
      }
    }

    /** Repairs a page that has become too small. True means the page left the tree and should be deleted. */
    method CoalesceOrRedistribute(node: PageID, ghost pending: set<PageID>) returns (needDelete: bool)
      requires NoStrays(pending) && State(BadSize(node)) && node in meta && node in file.used && rootPageID in meta
      requires Size(file.used[node]) < MinSize(file.used[node], Lim())
      requires node != rootPageID ==> Size(file.used[node]) + 1 == MinSize(file.used[node], Lim())
      requires meta[node].level <= meta[rootPageID].level
      modifies this, file
      ensures Structured() && contents == old(contents) && file.Room() >= old(file.Room())
      ensures NoStrays(if needDelete then pending + {node} else pending)
      ensures meta.Keys <= old(meta.Keys) && (needDelete ==> node !in meta)
      // pages leave the tree exactly if a root has become useless, or if a page and its neighbour fit on one page
      ensures node == old(rootPageID) ==>
                (meta.Keys == old(meta.Keys) <==> Size(old(file.used[node])) > if old(file.used[node]).Leaf? then 0 else 1)
      ensures node != old(rootPageID) ==>
                forall s {:trigger IsNeighbour(old(Snapshot()), node, s)} :: IsNeighbour(old(Snapshot()), node, s) ==>
                  (meta.Keys == old(meta.Keys) <==> !FitOnOne(old(Snapshot()), node, s, Lim()))
      decreases meta[rootPageID].level - meta[node].level, 1
    {
      ghost var t, d := Snapshot(), BadSize(node);
      InvAt(t, contents, d, Lim(), node);
      var n := file.used[node];
      if n.parent == INVALID_PAGE_ID {
        assert LinksOk(t, d, n.parent) || node == rootPageID;
        if (n.Leaf? && Size(n) == 0) || (n.Internal? && Size(n) == 1) {
          AdjustRoot(node, pending);
          return true;
        }
        Settle(t, contents, node, Lim());
        return false;
      }
      var parent := n.parent;
      InvAt(t, contents, d, Lim(), parent);
      var sibling, middleIndex := FindSibling(node, parent);
      if Size(file.used[sibling]) + Size(n) < MaxSize(n, Lim()) {
        var neighbor', node', deleteParent := Coalesce(sibling, node, parent, middleIndex, pending);
        if deleteParent {
          var _ := DeleteIndexPage(parent, pending + {node'} + {parent}, pending + {node'});
        }
        if neighbor' != sibling {
          var _ := DeleteIndexPage(node', pending + {node'}, pending);
          return false;
        }
        return true;
      }
      Redistribute(sibling, node, middleIndex, pending);
      return false;
    }

    /** The neighbour to merge or share with: the next child of the parent, or the previous one for the last child.
        Also returns the position of the right one of the two. */
    method FindSibling(node: PageID, parent: PageID) returns (sibling: PageID, middleIndex: nat)
      requires State(BadSize(node)) && node in meta && parent in meta && node in file.used && parent in file.used
      requires LinksOk(Snapshot(), BadSize(node), node) && LinksOk(Snapshot(), BadSize(node), parent)
      requires node != rootPageID && file.used[node].parent == parent && SizeOk(Snapshot(), BadSize(node), parent, Lim())
      ensures sibling in meta && sibling in file.used && sibling != node
      ensures Siblings(Snapshot(), sibling, node, parent, middleIndex) || Siblings(Snapshot(), node, sibling, parent, middleIndex)
      ensures forall s {:trigger IsNeighbour(Snapshot(), node, s)} :: IsNeighbour(Snapshot(), node, s) <==> s == sibling
      ensures MinSize(file.used[node], Lim()) <= Size(file.used[sibling])
    {
      ghost var t, d := Snapshot(), BadSize(node);
      var kids := file.used[parent].kids;
      var thisIndex := FirstIndexOf(kids, node);
      var siblingIndex := if thisIndex + 1 == |kids| then thisIndex - 1 else thisIndex + 1;
      middleIndex := if thisIndex + 1 == |kids| then thisIndex else siblingIndex;
      sibling := kids[siblingIndex];
      ChildOf(t, d, parent, siblingIndex);
      InvAt(t, contents, d, Lim(), sibling);
      KidsDistinct(t, d, parent);
      OneNeighbour(t, d, node, parent, thisIndex, sibling);
    }

    /** Empties the right one of two neighbours into the left one and repairs the parent.
        Returns the two pages with the surviving one first, and whether the parent left the tree. */
    method Coalesce(neighbor: PageID, node: PageID, parent: PageID, index: nat, ghost pending: set<PageID>)
      returns (neighbor': PageID, node': PageID, needDelete: bool)
      requires NoStrays(pending) && State(BadSize(node)) && node in meta && neighbor in meta && rootPageID in meta && neighbor != node
      requires Siblings(Snapshot(), neighbor, node, parent, index) || Siblings(Snapshot(), node, neighbor, parent, index)
      requires node in file.used && neighbor in file.used
      requires Size(file.used[node]) + 1 == MinSize(file.used[node], Lim()) <= Size(file.used[neighbor])
      requires Size(file.used[neighbor]) + Size(file.used[node]) < MaxSize(file.used[node], Lim())
      requires meta[node].level < meta[rootPageID].level
      modifies this, file
      ensures Structured() && contents == old(contents) && file.Room() >= old(file.Room())
      ensures NoStrays(if needDelete then pending + {node'} + {parent} else pending + {node'})
      ensures meta.Keys <= old(meta.Keys) && node' !in meta && (needDelete ==> parent !in meta)
      ensures (neighbor', node') == (neighbor, node) || (neighbor', node') == (node, neighbor)
      decreases meta[rootPageID].level - meta[node].level, 0
    {
      ghost var t, d := Snapshot(), BadSize(node);
      neighbor', node' := neighbor, node;
      if file.used[parent].kids[index] == neighbor {
        neighbor', node' := node', neighbor';
      }
      SiblingsOk(t, d, neighbor', node', parent, index);
      Merge(t, contents, node, neighbor', node', parent, index, Lim());
      InvAt(t, contents, d, Lim(), parent);
      MergePages(neighbor', node', parent, index);
      ghost var t' := Snapshot();
      StillAccounted(t, t', refused, pending, pending + {node'});
      needDelete := RepairParent(parent, pending + {node'});
    }

    /** A parent that has lost an entry is repaired in turn if it has become too small. */
    method RepairParent(parent: PageID, ghost pending: set<PageID>) returns (needDelete: bool)
      requires NoStrays(pending) && State(BadSize(parent)) && parent in meta && rootPageID in meta
      requires meta[parent].level <= meta[rootPageID].level
      requires parent in file.used && file.used[parent].Internal?
      requires Size(file.used[parent]) + 1 >= if parent == rootPageID then 2 else MinSize(file.used[parent], Lim())
      requires Size(file.used[parent]) < MaxSize(file.used[parent], Lim())
      modifies this, file
      ensures Structured() && contents == old(contents) && file.Room() >= old(file.Room())
      ensures NoStrays(if needDelete then pending + {parent} else pending)
      ensures meta.Keys <= old(meta.Keys) && (needDelete ==> parent !in meta)
      decreases meta[rootPageID].level - meta[parent].level, 2
    {
      InvAt(Snapshot(), contents, BadSize(parent), Lim(), parent);
      if Size(file.used[parent]) < MinSize(file.used[parent], Lim()) {
        needDelete := CoalesceOrRedistribute(parent, pending);
      } else {
        Settle(Snapshot(), contents, parent, Lim());
        needDelete := false;
      }
    }

    /** Moves all entries of r to the end of l and drops r's entry from the parent. */
    method MergePages(l: PageID, r: PageID, q: PageID, i: nat)
      requires file.Valid() && l in meta && r in meta && l in file.used && r in file.used && q in file.used
      requires file.used[q].Internal? && i < |file.used[q].keys| == |file.used[q].kids|
      requires var nl, nr := file.used[l], file.used[r];
               && ((nl.Leaf? && nr.Leaf?) || (nl.Internal? && nr.Internal?))
               && (|nr.keys| >= 1 || nl.Leaf?)
               && (forall c :: c in Kids(nr) ==> c in file.used)
      modifies `meta, file
      ensures file.Valid() && file.Room() == old(file.Room())
      ensures Snapshot() == MergeTree(old(Snapshot()), l, r, q, i)
    {
      var nl, nr, nq := file.used[l], file.used[r], file.used[q];
      var pages := file.used[l := Merged(nl, nr, nq.keys[i])][r := Drained(nr)][q := RemoveSlot(nq, i)];
      assert forall c :: c in Kids(nr) ==> c in pages;
      pages := AdoptAll(pages, Kids(nr), l);
      ghost var t' := MergeTree(old(Snapshot()), l, r, q, i);
      assert pages == t'.pages;
      file.WriteBack(pages);
      meta := t'.meta;
    }

    /** Moves one entry from the larger neighbour to a page that has become too small. */
    method Redistribute(neighbor: PageID, node: PageID, index: nat, ghost pending: set<PageID>)
      requires NoStrays(pending) && State(BadSize(node)) && node in meta && neighbor in meta && neighbor != node
      requires node in file.used && neighbor in file.used && !file.used[node].Blank?
      requires var q := file.used[node].parent;
               Siblings(Snapshot(), neighbor, node, q, index) || Siblings(Snapshot(), node, neighbor, q, index)
      requires Size(file.used[node]) + 1 == MinSize(file.used[node], Lim()) < Size(file.used[neighbor])
      modifies `meta, file
      ensures NoStrays(pending) && State(Sound) && contents == old(contents) && file.Room() == old(file.Room())
      ensures meta.Keys == old(meta.Keys)
    {
      ghost var t, d := Snapshot(), BadSize(node);
      var parent := file.used[node].parent;
      InvAt(t, contents, d, Lim(), node);
      InvAt(t, contents, d, Lim(), neighbor);
      if file.used[parent].kids[index] == node {
        SiblingsOk(t, d, neighbor, node, parent, index);
        RotateRight(neighbor, node, parent, index);
        if t.pages[node].Leaf? {
          RotateLeafRight(t, contents, node, neighbor, node, parent, index, Lim());
        } else {
          RotateInternalRight(t, contents, node, neighbor, node, parent, index, Lim());
        }
      } else {
        SiblingsOk(t, d, node, neighbor, parent, index);
        RotateLeft(node, neighbor, parent, index);
        if t.pages[node].Leaf? {
          RotateLeafLeft(t, contents, node, node, neighbor, parent, index, Lim());
        } else {
          RotateInternalLeft(t, contents, node, node, neighbor, parent, index, Lim());
        }
      }
      StillAccounted(t, Snapshot(), refused, pending, pending);
    }

    /** Moves the first entry of r to the end of l; the separator in q becomes r's new first key. */
    method RotateLeft(l: PageID, r: PageID, q: PageID, i: nat)
      requires file.Valid() && l in meta && r in meta && l in file.used && r in file.used
      requires Siblings(Snapshot(), l, r, q, i)
      requires var nl, nr := file.used[l], file.used[r];
               (nl.Leaf? && nr.Leaf? && |nr.keys| == |nr.vals| >= 2)
               || (nl.Internal? && nr.Internal? && |nr.keys| == |nr.kids| >= 2 && nr.kids[0] in file.used)
      modifies `meta, file
      ensures file.Valid() && file.Room() == old(file.Room())
      ensures Snapshot() == RotateLeftTree(old(Snapshot()), l, r, q, i)
    {
      var nl, nr, nq := file.used[l], file.used[r], file.used[q];
      var nl', nr' := FirstToEndLeft(nl, nr, nq.keys[i]), WithoutFirst(nr);
      var pages := file.used[l := nl'][r := nr'][q := Internal(nq.parent, nq.keys[i := nr.keys[1]], nq.kids)];
      pages := AdoptAll(pages, if nr.Internal? then [nr.kids[0]] else [], l);
      ghost var t' := RotateLeftTree(old(Snapshot()), l, r, q, i);
      assert pages == t'.pages;
      file.WriteBack(pages);
      meta := t'.meta;
    }

    /** Moves the last entry of l to the front of r; the separator in q becomes the key that moved. */
    method RotateRight(l: PageID, r: PageID, q: PageID, i: nat)
      requires file.Valid() && l in meta && r in meta && l in file.used && r in file.used
      requires Siblings(Snapshot(), l, r, q, i)
      requires var nl, nr := file.used[l], file.used[r];
               (nl.Leaf? && nr.Leaf? && |nl.keys| == |nl.vals| >= 2)
               || (nl.Internal? && nr.Internal? && |nl.keys| == |nl.kids| >= 2 && |nr.keys| >= 1
                   && nl.kids[|nl.kids| - 1] in file.used)
      modifies `meta, file
      ensures file.Valid() && file.Room() == old(file.Room())
      ensures Snapshot() == RotateRightTree(old(Snapshot()), l, r, q, i)
    {
      var nl, nr, nq := file.used[l], file.used[r], file.used[q];
      var last := |nl.keys| - 1;
      var nl', nr' := WithoutLast(nl), LastToFrontRight(nl, nr, nq.keys[i]);
      var pages := file.used[l := nl'][r := nr'][q := Internal(nq.parent, nq.keys[i := nl.keys[last]], nq.kids)];
      pages := AdoptAll(pages, if nl.Internal? then [nl.kids[last]] else [], r);
      ghost var t' := RotateRightTree(old(Snapshot()), l, r, q, i);
      assert pages == t'.pages;
      file.WriteBack(pages);
      meta := t'.meta;
    }

    /** Drops a root without entries, or an internal root whose only child then becomes the root. */
    method AdjustRoot(oldRoot: PageID, ghost pending: set<PageID>)
      requires NoStrays(pending) && State(BadSize(oldRoot)) && oldRoot == rootPageID && oldRoot in file.used
      requires var n := file.used[oldRoot]; (n.Leaf? && Size(n) == 0) || (n.Internal? && Size(n) == 1)
      modifies `rootPageID, `headerRootPageID, `meta, file
      ensures Structured() && NoStrays(pending + {oldRoot}) && contents == old(contents) && file.Room() == old(file.Room())
      ensures meta.Keys <= old(meta.Keys) && oldRoot !in meta
      ensures var n := old(file.used)[oldRoot];
              if n.Leaf? then rootPageID == INVALID_PAGE_ID && contents == map[]
              else rootPageID == n.kids[0] && rootPageID in file.used && !file.used[rootPageID].Blank?
                   && file.used[rootPageID].parent == INVALID_PAGE_ID
    {
      ghost var t, d := Snapshot(), BadSize(oldRoot);
      if file.used[oldRoot].Leaf? {
        EmptyRoot(t, contents, d, Lim());
        OnlyRoot(t, d);
        rootPageID := INVALID_PAGE_ID;
        UpdateRootPageID();
        meta := map[];
      } else {
        InvAt(t, contents, d, Lim(), oldRoot);
        ChildOf(t, d, oldRoot, 0);
        ShrinkRoot(t, contents, Lim());
        var child := file.used[oldRoot].kids[0];
        rootPageID := child;
        UpdateRootPageID();
        file.WriteBack(file.used[child := SetParent(file.used[child], INVALID_PAGE_ID)]);
        meta := meta - {oldRoot};
      }
      StillAccounted(t, Snapshot(), refused, pending, pending + {oldRoot});
    }
  }
}
