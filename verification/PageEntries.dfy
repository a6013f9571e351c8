/** The entry array that leaf and internal pages share. */
module PageEntries {
  import opened Basics
  import opened NodeOps

  function Firsts<V>(s: seq<(int, V)>): (r: seq<int>)
    ensures |r| == |s| && forall i :: 0 <= i < |s| ==> r[i] == s[i].0
  {
    seq(|s|, i requires 0 <= i < |s| => s[i].0)
  }

  function Seconds<V>(s: seq<(int, V)>): (r: seq<V>)
    ensures |r| == |s| && forall i :: 0 <= i < |s| ==> r[i] == s[i].1
  {
    seq(|s|, i requires 0 <= i < |s| => s[i].1)
  }

  lemma ConcatParts<V>(a: seq<(int, V)>, b: seq<(int, V)>)
    ensures Firsts(a + b) == Firsts(a) + Firsts(b) && Seconds(a + b) == Seconds(a) + Seconds(b)
  {
  }

  lemma SliceParts<V>(s: seq<(int, V)>, i: nat, j: nat)
    requires i <= j <= |s|
    ensures Firsts(s[i..j]) == Firsts(s)[i..j] && Seconds(s[i..j]) == Seconds(s)[i..j]
  {
  }

  /** Entries moved up by one from i on, with x in the gap. */
  lemma MovedUp<T>(s: seq<T>, r: seq<T>, i: nat, x: T)
    requires i <= |s| && |r| == |s| + 1 && r[i] == x
    requires (forall j :: 0 <= j < i ==> r[j] == s[j]) && (forall j :: i <= j < |s| ==> r[j + 1] == s[j])
    ensures r == InsertAt(s, i, x)
  {
    assert r[..i] == s[..i] && r[i + 1..] == s[i..];
    assert r == r[..i] + [r[i]] + r[i + 1..];
  }

  /** Entries moved down by one over entry i. */
  lemma MovedDown<T>(s: seq<T>, r: seq<T>, i: nat)
    requires i < |s| && |r| == |s| - 1
    requires (forall j :: 0 <= j < i ==> r[j] == s[j]) && (forall j :: i < j < |s| ==> r[j - 1] == s[j])
    ensures r == RemoveAt(s, i)
  {
    assert r[..i] == s[..i] && r[i..] == s[i + 1..];
    assert r == r[..i] + r[i..];
  }

  lemma FirstKeySet<V>(s: seq<(int, V)>, r: seq<(int, V)>, key: int)
    requires |s| >= 1 && r == s[0 := (key, s[0].1)]
    ensures Firsts(r) == Firsts(s)[0 := key] && Seconds(r) == Seconds(s)
  {
  }

  lemma InsertParts<V>(s: seq<(int, V)>, i: nat, x: (int, V))
    requires i <= |s|
    ensures Firsts(InsertAt(s, i, x)) == InsertAt(Firsts(s), i, x.0) && Seconds(InsertAt(s, i, x)) == InsertAt(Seconds(s), i, x.1)
  {
    ConcatParts(s[..i], [x]);
    ConcatParts(s[..i] + [x], s[i..]);
    SliceParts(s, 0, i);
    SliceParts(s, i, |s|);
  }

  lemma RemoveParts<V>(s: seq<(int, V)>, i: nat)
    requires i < |s|
    ensures Firsts(RemoveAt(s, i)) == RemoveAt(Firsts(s), i) && Seconds(RemoveAt(s, i)) == RemoveAt(Seconds(s), i)
  {
    ConcatParts(s[..i], s[i + 1..]);
    SliceParts(s, 0, i);
    SliceParts(s, i + 1, |s|);
  }

  /** What the scans of the pages stop at. */
  lemma KeyIndexIs(keys: seq<int>, key: int, i: nat)
    requires i <= |keys| && (forall j :: 0 <= j < i ==> keys[j] < key) && (i < |keys| ==> key <= keys[i])
    ensures KeyIndex(keys, key) == i
  {
  }

  lemma {:induction false} InsertPosIs(keys: seq<int>, key: int, i: nat)
    requires i <= |keys| && (forall j :: i <= j < |keys| ==> key < keys[j]) && (i > 0 ==> keys[i - 1] <= key)
    ensures InsertPos(keys, key) == i
  {
    if i < |keys| {
      InsertPosIs(keys[..|keys| - 1], key, i);
    }
  }

  lemma {:induction false} FirstIndexIs(s: seq<int>, x: int, i: nat)
    requires i < |s| && s[i] == x && x !in s[..i]
    ensures FirstIndexOf(s, x) == i
  {
    if i > 0 {
      assert s[0] == s[..i][0];
      assert s[1..][..i - 1] == s[..i][1..];
      FirstIndexIs(s[1..], x, i - 1);
    }
  }

  lemma {:induction false} LastIndexIs(s: seq<PageID>, x: PageID, i: nat)
    requires i < |s| && s[i] == x && forall j :: i < j < |s| ==> s[j] != x
    ensures LastIndexOf(s, x) == i
  {
    if i + 1 < |s| {
      LastIndexIs(s[..|s| - 1], x, i);
    }
  }

  lemma LookupSlotIs(keys: seq<int>, key: int, i: nat)
    requires 1 <= i <= |keys| && (forall j :: 1 <= j < i ==> keys[j] <= key) && (i < |keys| ==> key < keys[i])
    ensures LookupSlot(keys, key) == i - 1
  {
  }
}
