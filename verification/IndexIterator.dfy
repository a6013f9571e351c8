/** Range scans over the leaf chain (src/index/index_iterator.cpp, begin() in src/index/b_plus_tree.cpp). */
module IndexIterator {
  import opened Basics
  import opened NodeOps
  import opened TreeInvariant
  import opened BPlusTree

  /** The contents' keys from k on. */
  ghost function KeysFrom(C: Contents, k: int): set<int> {
    set x | x in C && k <= x
  }

  /** Past the last key of a leaf, the next key of the contents is the first one of the leaf it links to. */
  lemma NextLeaf(t: Tree, C: Contents, lim: Limits, p: PageID)
    requires Inv(t, C, Sound, lim) && p in t.meta && p in t.pages && t.pages[p].Leaf?
    ensures |t.pages[p].keys| >= 1
    ensures var n := t.pages[p];
            if n.next == INVALID_PAGE_ID then KeysFrom(C, n.keys[|n.keys| - 1] + 1) == {}
            else && LinksOk(t, Sound, n.next) && t.pages[n.next].Leaf? && |t.pages[n.next].keys| >= 1
                 && KeysFrom(C, n.keys[|n.keys| - 1] + 1) == KeysFrom(C, t.pages[n.next].keys[0])
  {
    InvAt(t, C, Sound, lim, p);
    var m, n := t.meta[p], t.pages[p];
    var last := n.keys[|n.keys| - 1];
    forall k | k in C && last < k ensures m.hi <= k {
      assert k in n.keys || m.hi <= k;
    }
    if n.next != INVALID_PAGE_ID {
      InvAt(t, C, Sound, lim, n.next);
      var m', n' := t.meta[n.next], t.pages[n.next];
      forall k | k in C && m.hi <= k ensures n'.keys[0] <= k {
        assert k in n'.keys || m'.hi <= k;
      }
    }
  }

  /** Within a leaf, the entry after the current one holds the next key. */
  lemma NextEntry(t: Tree, C: Contents, lim: Limits, p: PageID, i: nat)
    requires Inv(t, C, Sound, lim) && p in t.meta && p in t.pages && t.pages[p].Leaf?
    requires i + 1 < |t.pages[p].keys|
    ensures KeysFrom(C, t.pages[p].keys[i] + 1) == KeysFrom(C, t.pages[p].keys[i + 1])
  {
    InvAt(t, C, Sound, lim, p);
    var m, n := t.meta[p], t.pages[p];
    forall k | k in C && n.keys[i] < k ensures n.keys[i + 1] <= k {
      assert k in n.keys || m.hi <= k;
    }
  }

  class IndexIterator {
    const tree: BPlusTree
    /** INVALID_PAGE_ID stands for the null pointer of the end iterator. */
    var curLeaf: PageID
    var curItemIndex: nat

    /** The tree has not been changed behind the iterator's back. */
    ghost predicate Valid()
      reads this, tree, tree.file
    {
      && tree.Valid()
      && (curLeaf == INVALID_PAGE_ID ==> curItemIndex == 0)
      && (curLeaf != INVALID_PAGE_ID ==>
            && tree.rootPageID != INVALID_PAGE_ID
            && curLeaf in tree.meta && curLeaf in tree.file.used && tree.file.used[curLeaf].Leaf?
            && curItemIndex < |tree.file.used[curLeaf].keys| == |tree.file.used[curLeaf].vals|)
    }

    /** The keys still to be visited, the current one included. */
    ghost function Remaining(): set<int>
      requires Valid()
      reads this, tree, tree.file
    {
      if curLeaf == INVALID_PAGE_ID then {} else KeysFrom(tree.contents, tree.file.used[curLeaf].keys[curItemIndex])
    }

    /** Positions the iterator at an entry of a leaf, or at the next leaf if the leaf has no such entry. */
    constructor (tree: BPlusTree, leaf: PageID, index: nat)
      requires tree.Valid()
      requires leaf != INVALID_PAGE_ID ==>
                 && tree.rootPageID != INVALID_PAGE_ID
                 && leaf in tree.meta && leaf in tree.file.used && tree.file.used[leaf].Leaf?
                 && index <= |tree.file.used[leaf].keys|
      ensures Valid() && this.tree == tree
      ensures leaf == INVALID_PAGE_ID ==> Remaining() == {}
      ensures leaf != INVALID_PAGE_ID ==>
                var keys := tree.file.used[leaf].keys;
                && |keys| >= 1
                && Remaining() == KeysFrom(tree.contents, if index < |keys| then keys[index] else keys[|keys| - 1] + 1)
    {
      this.tree := tree;
      curLeaf, curItemIndex := leaf, index;
      if leaf == INVALID_PAGE_ID {
        curItemIndex := 0;
      }
      new;
      if leaf != INVALID_PAGE_ID {
        InvAt(tree.Snapshot(), tree.contents, Sound, tree.Lim(), leaf);
        if |tree.file.used[leaf].keys| <= index {
          NextPage();
        }
      }
    }

    predicate IsEnd()
      reads this
    {
      curLeaf == INVALID_PAGE_ID
    }

    method NextPage()
      requires tree.Valid() && tree.rootPageID != INVALID_PAGE_ID
      requires curLeaf in tree.meta && curLeaf in tree.file.used && tree.file.used[curLeaf].Leaf?
      modifies this
      ensures Valid()
      ensures var keys := tree.file.used[old(curLeaf)].keys;
              |keys| >= 1 && Remaining() == KeysFrom(tree.contents, keys[|keys| - 1] + 1)
    {
      NextLeaf(tree.Snapshot(), tree.contents, tree.Lim(), curLeaf);
      curItemIndex := 0;
      curLeaf := tree.file.used[curLeaf].next;
      if curLeaf != INVALID_PAGE_ID {
        InvAt(tree.Snapshot(), tree.contents, Sound, tree.Lim(), curLeaf);
      }
    }

    /** The current pair, which has the smallest key not visited yet. None stands for the exception at the end. */
    method Deref() returns (r: Option<(int, RecordID)>)
      requires Valid()
      ensures r == None <==> IsEnd()
      ensures r == None <==> Remaining() == {}
      ensures r.Some? ==>
                var (k, v) := r.value;
                && k in Remaining() && (forall x :: x in Remaining() ==> k <= x)
                && k in tree.contents && tree.contents[k] == v
    {
      if IsEnd() {
        return None;
      }
      InvAt(tree.Snapshot(), tree.contents, Sound, tree.Lim(), curLeaf);
      var n := tree.file.used[curLeaf];
      assert n.keys[curItemIndex] in Remaining();
      return Some((n.keys[curItemIndex], n.vals[curItemIndex]));
    }

    /** Moves on to the next key. False stands for the exception at the end. */
    method Next() returns (ok: bool)
      requires Valid()
      modifies this
      ensures Valid()
      ensures ok <==> old(Remaining()) != {}
      ensures !ok ==> Remaining() == {}
      ensures ok ==> exists k :: k in old(Remaining()) && (forall x :: x in old(Remaining()) ==> k <= x)
                                 && Remaining() == old(Remaining()) - {k}
    {
      if IsEnd() {
        return false;
      }
      ghost var t, C := tree.Snapshot(), tree.contents;
      InvAt(t, C, Sound, tree.Lim(), curLeaf);
      var n := tree.file.used[curLeaf];
      ghost var k := n.keys[curItemIndex];
      assert KeysFrom(C, k) - {k} == KeysFrom(C, k + 1);
      assert k in KeysFrom(C, k);
      if |n.keys| <= curItemIndex + 1 {
        NextPage();
      } else {
        NextEntry(t, C, tree.Lim(), curLeaf, curItemIndex);
        curItemIndex := curItemIndex + 1;
      }
      return true;
    }
  }

  /** begin(): the whole tree. Null stands for the "tree is empty" exception. */
  method Begin(tree: BPlusTree) returns (it: IndexIterator?)
    requires tree.Valid()
    ensures it == null <==> tree.rootPageID == INVALID_PAGE_ID
    ensures it != null ==> fresh(it) && it.tree == tree && it.Valid() && it.Remaining() == tree.contents.Keys
  {
    var leaf := tree.FindLeafPage(0, true);
    if leaf == None {
      return null;
    }
    it := new IndexIterator(tree, leaf.value, 0);
    var n := tree.file.used[leaf.value];
    forall k | k in tree.contents ensures n.keys[0] <= k {
      assert k < tree.meta[leaf.value].hi ==> k in n.keys;
    }
  }

  /** begin(key): the keys from the given one on. */
  method BeginAt(tree: BPlusTree, key: int) returns (it: IndexIterator?)
    requires tree.Valid() && 0 <= key < KEY_SPACE
    ensures it == null <==> tree.rootPageID == INVALID_PAGE_ID
    ensures it != null ==> fresh(it) && it.tree == tree && it.Valid() && it.Remaining() == KeysFrom(tree.contents, key)
  {
    var leaf := tree.FindLeafPage(key, false);
    if leaf == None {
      return null;
    }
    var n := tree.file.used[leaf.value];
    var i := KeyIndex(n.keys, key);
    it := new IndexIterator(tree, leaf.value, i);
    assert it.Remaining() == KeysFrom(tree.contents, key) by {
      ghost var bound := if i < |n.keys| then n.keys[i] else n.keys[|n.keys| - 1] + 1;
      forall k | k in tree.contents ensures bound <= k <==> key <= k {
        assert tree.meta[leaf.value].lo <= k < tree.meta[leaf.value].hi ==> k in n.keys;
      }
    }
  }

  /** A loop over an iterator visits every remaining pair once, in strictly increasing key order, and stops. */
  method Drain(it: IndexIterator) returns (out: seq<(int, RecordID)>)
    requires it.Valid()
    modifies it
    ensures it.Valid() && it.IsEnd()
    ensures forall i, j :: 0 <= i < j < |out| ==> out[i].0 < out[j].0
    ensures forall i :: 0 <= i < |out| ==>
              out[i].0 in old(it.Remaining()) && out[i].0 in it.tree.contents && it.tree.contents[out[i].0] == out[i].1
    ensures forall k :: k in old(it.Remaining()) ==> exists i :: 0 <= i < |out| && out[i].0 == k
  {
    out := [];
    ghost var all := it.Remaining();
    while !it.IsEnd()
      invariant it.Valid() && it.Remaining() <= all
      invariant forall i, j :: 0 <= i < j < |out| ==> out[i].0 < out[j].0
      invariant forall i :: 0 <= i < |out| ==>
                  out[i].0 in all && out[i].0 in it.tree.contents && it.tree.contents[out[i].0] == out[i].1
      invariant forall i, k :: 0 <= i < |out| && k in it.Remaining() ==> out[i].0 < k
      invariant forall k :: k in all && k !in it.Remaining() ==> exists i :: 0 <= i < |out| && out[i].0 == k
      decreases it.Remaining()
    {
      ghost var before, prev := it.Remaining(), out;
      var item := it.Deref();
      ghost var k := item.value.0;
      out := out + [item.value];
      var _ := it.Next();
      assert it.Remaining() == before - {k};
      assert out[|prev|].0 == k;
      forall x | x in all && x !in it.Remaining() ensures exists i :: 0 <= i < |out| && out[i].0 == x {
        if x != k {
          var i :| 0 <= i < |prev| && prev[i].0 == x;
          assert out[i].0 == x;
        }
      }
    }
  }
}
