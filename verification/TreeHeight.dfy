/** The tree stays flat: its height is logarithmic in the number of stored pairs (src/index/b_plus_tree.cpp). */
module TreeHeight {
  import opened Basics
  import opened NodeOps
  import opened TreeInvariant

  /** The stored keys in [lo, hi). */
  ghost function Range(C: Contents, lo: int, hi: int): set<int> {
    set k | k in C && lo <= k < hi
  }

  lemma RangeSplit(C: Contents, lo: int, mid: int, hi: int)
    requires lo <= mid <= hi
    ensures |Range(C, lo, hi)| == |Range(C, lo, mid)| + |Range(C, mid, hi)|
  {
    assert Range(C, lo, hi) == Range(C, lo, mid) + Range(C, mid, hi);
  }

  /** The fewest pairs below a page of this level that is not the root. */
  function MinEntries(level: nat, lim: Limits): nat {
    if level == 0 then lim.leafMax / 2 else (lim.internalMax / 2) * MinEntries(level - 1, lim)
  }

  /** A leaf's keys are all different, so the leaf holds as many pairs as it has entries. */
  lemma {:induction false} LeafEntries(C: Contents, lo: int, hi: int, keys: seq<int>)
    requires Sorted(keys) && forall i :: 0 <= i < |keys| ==> lo <= keys[i] < hi && keys[i] in C
    ensures |Range(C, lo, hi)| >= |keys|
    decreases |keys|
  {
    if |keys| > 0 {
      var last := keys[|keys| - 1];
      LeafEntries(C, lo, last, keys[..|keys| - 1]);
      RangeSplit(C, lo, last, hi);
      assert last in Range(C, last, hi);
    }
  }

  /** Below any page but the root there are at least MinEntries pairs. */
  lemma {:induction false} EntriesBelow(t: Tree, C: Contents, lim: Limits, p: PageID)
    requires Inv(t, C, Sound, lim) && p in t.meta && p != t.root
    ensures |Range(C, t.meta[p].lo, t.meta[p].hi)| >= MinEntries(t.meta[p].level, lim)
    decreases t.meta[p].level, 0
  {
    InvAt(t, C, Sound, lim, p);
    var m, n := t.meta[p], t.pages[p];
    if n.Leaf? {
      LeafEntries(C, m.lo, m.hi, n.keys);
    } else {
      EntriesBelowKids(t, C, lim, p, |n.kids|);
      Multiply(|n.kids|, lim.internalMax / 2, MinEntries(m.level - 1, lim));
    }
  }

  lemma Multiply(a: nat, b: nat, x: nat)
    requires a >= b
    ensures a * x >= b * x
  {
  }

  /** Below the first i children there are at least i times the minimum for one child. */
  lemma {:induction false} EntriesBelowKids(t: Tree, C: Contents, lim: Limits, p: PageID, i: nat)
    requires Inv(t, C, Sound, lim) && p in t.meta && p in t.pages && t.pages[p].Internal? && t.meta[p].level >= 1
    requires 1 <= i <= |t.pages[p].kids| == |t.pages[p].keys|
    ensures |Range(C, t.meta[p].lo, SlotHi(t.meta[p], t.pages[p], i - 1))| >= i * MinEntries(t.meta[p].level - 1, lim)
    decreases t.meta[p].level - 1, i
  {
    var m, n := t.meta[p], t.pages[p];
    assert Links(t, Sound);
    ChildOf(t, Sound, p, i - 1);
    var c := n.kids[i - 1];
    assert LinksOk(t, Sound, c) && LinksOk(t, Sound, p);
    EntriesBelow(t, C, lim, c);
    if i > 1 {
      EntriesBelowKids(t, C, lim, p, i - 1);
      ChildWithin(t, Sound, p, i - 1);
      RangeSplit(C, m.lo, SlotLo(m, n, i - 1), SlotHi(m, n, i - 1));
    }
  }

  /** A tree with an internal root of level L stores at least twice MinEntries(L - 1) pairs. */
  lemma EntriesOfTree(t: Tree, C: Contents, lim: Limits)
    requires Inv(t, C, Sound, lim)
    ensures t.root in t.meta
    ensures |C| >= if t.meta[t.root].level == 0 then 1 else 2 * MinEntries(t.meta[t.root].level - 1, lim)
  {
    InvAt(t, C, Sound, lim, t.root);
    var m, n := t.meta[t.root], t.pages[t.root];
    assert |C.Keys| == |C|;
    if n.Leaf? {
      LeafEntries(C, m.lo, m.hi, n.keys);
      assert Range(C, m.lo, m.hi) == C.Keys;
    } else {
      EntriesBelowKids(t, C, lim, t.root, |n.kids|);
      Multiply(|n.kids|, 2, MinEntries(m.level - 1, lim));
      assert Range(C, m.lo, m.hi) == C.Keys;
    }
  }

  function Log2(n: nat): nat {
    if n <= 1 then 0 else 1 + Log2(n / 2)
  }

  function Pow2(n: nat): nat {
    if n == 0 then 1 else 2 * Pow2(n - 1)
  }

  lemma {:induction false} Pow2Monotone(a: nat, b: nat)
    requires a <= b
    ensures Pow2(a) <= Pow2(b)
  {
    if a < b {
      Pow2Monotone(a, b - 1);
    }
  }

  /** Log2 is the binary logarithm, rounded down. */
  lemma {:induction false} Log2Exactly(n: nat)
    requires n >= 1
    ensures Pow2(Log2(n)) <= n < 2 * Pow2(Log2(n))
  {
    if n > 1 {
      Log2Exactly(n / 2);
    }
  }

  lemma {:induction false} Log2Monotone(a: nat, b: nat)
    requires a <= b
    ensures Log2(a) <= Log2(b)
  {
    if a > 1 {
      Log2Monotone(a / 2, b / 2);
    }
  }

  lemma {:induction false} Log2MinEntries(level: nat, lim: Limits)
    requires LimitsOk(lim)
    ensures MinEntries(level, lim) >= 1 && Log2(MinEntries(level, lim)) >= level
  {
    if level > 0 {
      Log2MinEntries(level - 1, lim);
      var x := MinEntries(level - 1, lim);
      Multiply(lim.internalMax / 2, 2, x);
      Log2Monotone(2 * x, MinEntries(level, lim));
    }
  }

  /** The height is at most one more than the binary logarithm of the number of pairs: a tree whose root has level L stores
      at least 2^L pairs. */
  lemma HeightBound(t: Tree, C: Contents, lim: Limits)
    requires Inv(t, C, Sound, lim)
    ensures t.root in t.meta && |C| >= 1 && t.meta[t.root].level <= Log2(|C|)
    ensures Pow2(t.meta[t.root].level) <= |C|
  {
    EntriesOfTree(t, C, lim);
    var level := t.meta[t.root].level;
    if level > 0 {
      Log2MinEntries(level - 1, lim);
      Log2Monotone(2 * MinEntries(level - 1, lim), |C|);
    }
    Log2Exactly(|C|);
    Pow2Monotone(level, Log2(|C|));
  }
}
