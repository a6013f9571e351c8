/**
 One index page of the B+ tree as a value, and what each page operation makes of it
 (src/page/b_plus_tree_leaf_page.cpp, src/page/b_plus_tree_internal_page.cpp).
 */
module NodeOps {
  import opened Basics

  /** An index page. Internal key 0 is never compared; child i holds the keys K(i) <= k < K(i+1). */
  datatype Node =
    | Blank
    | Leaf(parent: PageID, next: PageID, keys: seq<int>, vals: seq<RecordID>)
    | Internal(parent: PageID, keys: seq<int>, kids: seq<PageID>)

  function Size(n: Node): nat {
    match n
    case Blank => 0
    case Leaf(_, _, keys, _) => |keys|
    case Internal(_, _, kids) => |kids|
  }

  function Kids(n: Node): seq<PageID> {
    if n.Internal? then n.kids else []
  }

  function SetParent(n: Node, q: PageID): Node {
    if n.Blank? then n else n.(parent := q)
  }

  /** Makes q the parent of each of the given pages. */
  function Adopt(pages: map<PageID, Node>, kids: seq<PageID>, q: PageID): map<PageID, Node> {
    map p | p in pages :: if p in kids then SetParent(pages[p], q) else pages[p]
  }

  /** Adopting one more page. */
  lemma AdoptNext(pages: map<PageID, Node>, kids: seq<PageID>, c: PageID, q: PageID)
    requires c in pages
    ensures Adopt(pages, kids + [c], q) == Adopt(pages, kids, q)[c := SetParent(Adopt(pages, kids, q)[c], q)]
  {
    forall p ensures p in kids + [c] <==> p in kids || p == c {
    }
  }

  // ---------- Searching ----------

  /** The first i at or after `from` with key < keys[i], or the number of keys. */
  function FirstAbove(keys: seq<int>, key: int, from: nat): (i: nat)
    requires from <= |keys|
    ensures from <= i <= |keys|
    ensures forall j :: from <= j < i ==> keys[j] <= key
    ensures i < |keys| ==> key < keys[i]
    decreases |keys| - from
  {
    if from < |keys| && !(key < keys[from]) then FirstAbove(keys, key, from + 1) else from
  }

  /** The slot of an internal page that leads to the key; key 0 is never looked at. */
  function LookupSlot(keys: seq<int>, key: int): nat
    requires |keys| >= 1
  {
    FirstAbove(keys, key, 1) - 1
  }

  /** The first i with keys[i] >= key, or the number of keys. */
  function KeyIndex(keys: seq<int>, key: int): (i: nat)
    ensures i <= |keys|
    ensures forall j :: 0 <= j < i ==> keys[j] < key
    ensures i < |keys| ==> key <= keys[i]
  {
    if |keys| == 0 || key <= keys[0] then 0 else 1 + KeyIndex(keys[1..], key)
  }

  /** The position of the first occurrence of x, found by scanning from the front. */
  function FirstIndexOf(s: seq<int>, x: int): (i: nat)
    requires x in s
    ensures i < |s| && s[i] == x && x !in s[..i]
  {
    if s[0] == x then 0 else 1 + FirstIndexOf(s[1..], x)
  }

  /** The position of the last occurrence of c, found by scanning from the end. */
  function LastIndexOf(kids: seq<PageID>, c: PageID): (i: nat)
    requires c in kids
    ensures i < |kids| && kids[i] == c && c !in kids[i + 1..]
  {
    if kids[|kids| - 1] == c then |kids| - 1 else LastIndexOf(kids[..|kids| - 1], c)
  }

  function LeafLookup(n: Node, key: int): Option<RecordID>
    requires n.Leaf? && |n.keys| == |n.vals|
  {
    if key in n.keys then Some(n.vals[FirstIndexOf(n.keys, key)]) else None
  }

  // ---------- Inserting and splitting ----------

  function InsertAt<T>(s: seq<T>, i: nat, x: T): seq<T>
    requires i <= |s|
  {
    s[..i] + [x] + s[i..]
  }

  lemma InsertAtElements<T>(s: seq<T>, i: nat, x: T)
    requires i <= |s|
    ensures var r := InsertAt(s, i, x);
            && |r| == |s| + 1 && r[i] == x
            && (forall j :: 0 <= j < i ==> r[j] == s[j])
            && (forall j :: i < j < |r| ==> r[j] == s[j - 1])
            && (forall j :: i <= j < |s| ==> r[j + 1] == s[j])
            && (forall y :: y in r <==> y in s || y == x)
  {
    assert s == s[..i] + s[i..];
  }

  /** Where a leaf places a new key: scanning down from the end past the keys that are larger. */
  function InsertPos(keys: seq<int>, key: int): (i: nat)
    ensures i <= |keys|
  {
    if |keys| == 0 || keys[|keys| - 1] <= key then |keys| else InsertPos(keys[..|keys| - 1], key)
  }

  function LeafInsert(n: Node, key: int, val: RecordID): (m: Node)
    requires n.Leaf? && |n.keys| == |n.vals|
  {
    var i := InsertPos(n.keys, key);
    n.(keys := InsertAt(n.keys, i, key), vals := InsertAt(n.vals, i, val))
  }

  /** The entries that stay when a page is split in half, and the new page made of the others. */
  function LowerHalf(n: Node): (m: Node)
    requires (n.Leaf? && |n.keys| == |n.vals|) || (n.Internal? && |n.keys| == |n.kids|)
    ensures m.Leaf? == n.Leaf? && m.Internal? == n.Internal?
  {
    var half := (Size(n) + 1) / 2;
    if n.Leaf? then Leaf(n.parent, n.next, n.keys[..half], n.vals[..half])
    else Internal(n.parent, n.keys[..half], n.kids[..half])
  }

  function UpperHalf(n: Node): (m: Node)
    requires (n.Leaf? && |n.keys| == |n.vals|) || (n.Internal? && |n.keys| == |n.kids|)
    ensures m.Leaf? == n.Leaf? && m.Internal? == n.Internal?
  {
    var half := (Size(n) + 1) / 2;
    if n.Leaf? then Leaf(n.parent, INVALID_PAGE_ID, n.keys[half..], n.vals[half..])
    else Internal(n.parent, n.keys[half..], n.kids[half..])
  }

  /** A split leaf with its links in place: the lower half points at the new page, which takes over the old link. */
  function LowerLeaf(n: Node, right: PageID): Node
    requires n.Leaf? && |n.keys| == |n.vals|
  {
    var m := LowerHalf(n);
    Leaf(m.parent, right, m.keys, m.vals)
  }

  function UpperLeaf(n: Node): Node
    requires n.Leaf? && |n.keys| == |n.vals|
  {
    var m := UpperHalf(n);
    Leaf(m.parent, n.next, m.keys, m.vals)
  }

  function InsertNodeAfter(n: Node, c: PageID, key: int, id: PageID): Node
    requires n.Internal? && |n.keys| == |n.kids| && c in n.kids
  {
    var i := LastIndexOf(n.kids, c);
    n.(keys := InsertAt(n.keys, i + 1, key), kids := InsertAt(n.kids, i + 1, id))
  }

  // ---------- Removing, merging and redistributing ----------

  function RemoveAt<T>(s: seq<T>, i: nat): seq<T>
    requires i < |s|
  {
    s[..i] + s[i + 1..]
  }

  function LeafDelete(n: Node, key: int): Node
    requires n.Leaf? && |n.keys| == |n.vals| && key in n.keys
  {
    var i := FirstIndexOf(n.keys, key);
    n.(keys := RemoveAt(n.keys, i), vals := RemoveAt(n.vals, i))
  }

  function RemoveSlot(n: Node, i: nat): Node
    requires n.Internal? && i < |n.keys| == |n.kids|
  {
    n.(keys := RemoveAt(n.keys, i), kids := RemoveAt(n.kids, i))
  }

  /** l followed by r; an internal page's first key is filled in with the separator between the two. */
  function Merged(l: Node, r: Node, mid: int): Node
    requires (l.Leaf? && r.Leaf?) || (l.Internal? && r.Internal?)
    requires |r.keys| >= 1 || l.Leaf?
  {
    if l.Leaf? then Leaf(l.parent, r.next, l.keys + r.keys, l.vals + r.vals)
    else Internal(l.parent, l.keys + r.keys[0 := mid], l.kids + r.kids)
  }

  function Drained(n: Node): Node {
    match n
    case Leaf(parent, next, _, _) => Leaf(parent, next, [], [])
    case Internal(parent, _, _) => Internal(parent, [], [])
    case Blank => Blank
  }

  /** r's first entry (or child) becomes l's last. */
  function FirstToEndLeft(l: Node, r: Node, mid: int): Node
    requires (l.Leaf? && r.Leaf? && |r.keys| == |r.vals| >= 1) || (l.Internal? && r.Internal? && |r.kids| >= 1)
  {
    if l.Leaf? then Leaf(l.parent, l.next, l.keys + [r.keys[0]], l.vals + [r.vals[0]])
    else Internal(l.parent, l.keys + [mid], l.kids + [r.kids[0]])
  }

  function WithoutFirst(r: Node): Node
    requires (r.Leaf? && |r.keys| == |r.vals| >= 1) || (r.Internal? && |r.keys| == |r.kids| >= 1)
  {
    if r.Leaf? then Leaf(r.parent, r.next, r.keys[1..], r.vals[1..]) else Internal(r.parent, r.keys[1..], r.kids[1..])
  }

  /** l's last entry (or child) becomes r's first. */
  function LastToFrontRight(l: Node, r: Node, mid: int): Node
    requires (l.Leaf? && r.Leaf? && |l.keys| == |l.vals| >= 1)
          || (l.Internal? && r.Internal? && |l.keys| == |l.kids| >= 1 && |r.keys| >= 1)
  {
    if l.Leaf? then Leaf(r.parent, r.next, [l.keys[|l.keys| - 1]] + r.keys, [l.vals[|l.vals| - 1]] + r.vals)
    else Internal(r.parent, [l.keys[|l.keys| - 1]] + r.keys[0 := mid], [l.kids[|l.kids| - 1]] + r.kids)
  }

  function WithoutLast(l: Node): Node
    requires (l.Leaf? && |l.keys| == |l.vals| >= 1) || (l.Internal? && |l.keys| == |l.kids| >= 1)
  {
    var last := |l.keys| - 1;
    if l.Leaf? then Leaf(l.parent, l.next, l.keys[..last], l.vals[..last])
    else Internal(l.parent, l.keys[..last], l.kids[..last])
  }
}
