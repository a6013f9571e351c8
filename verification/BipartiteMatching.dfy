/** Maximum bipartite matching by augmenting paths (class MaxBipartiteMatchState of the vendored googlemock). */
module BipartiteMatching {

  /** Which elements (left) satisfy which matchers (right). */
  datatype MatchMatrix = MatchMatrix(lhsSize: nat, rhsSize: nat, edges: set<(int, int)>) {
    predicate HasEdge(l: int, r: int) {
      (l, r) in edges
    }
  }

  const UNUSED: int := -1

  /** Edges between nodes of the graph that share no endpoint. */
  ghost predicate IsMatching(g: MatchMatrix, m: set<(int, int)>) {
    && m <= g.edges && (forall e :: e in m ==> 0 <= e.0 < g.lhsSize && 0 <= e.1 < g.rhsSize)
    && (forall e, f :: e in m && f in m && e != f ==> e.0 != f.0 && e.1 != f.1)
  }

  ghost predicate LeftOk(g: MatchMatrix, left: seq<int>, right: seq<int>) {
    && |left| == g.lhsSize && |right| == g.rhsSize
    && forall l :: 0 <= l < |left| && left[l] != UNUSED ==>
         0 <= left[l] < |right| && right[left[l]] == l && g.HasEdge(l, left[l])
  }

  /** Where `right` is used it agrees with `left`, except possibly at r0. */
  ghost predicate RightOk(left: seq<int>, right: seq<int>, r0: int) {
    forall r :: 0 <= r < |right| && r != r0 && right[r] != UNUSED ==> 0 <= right[r] < |left| && left[right[r]] == r
  }

  /** The two vectors are mutually inverse and follow edges of the graph. */
  ghost predicate Mutual(g: MatchMatrix, left: seq<int>, right: seq<int>) {
    LeftOk(g, left, right) && RightOk(left, right, UNUSED)
  }

  ghost predicate NeighboursIn(g: MatchMatrix, l: int, s: set<int>) {
    forall r :: 0 <= r < g.rhsSize && g.HasEdge(l, r) ==> r in s
  }

  /** A set of matched right nodes that no alternating path leaves. */
  ghost predicate Dead(g: MatchMatrix, right: seq<int>, dead: set<int>) {
    && |right| == g.rhsSize
    && forall r :: r in dead ==> 0 <= r < |right| && right[r] != UNUSED && NeighboursIn(g, right[r], dead)
  }

  /** Seen nodes stay seen, and keep their partners. */
  ghost predicate KeepsSeen(right: seq<int>, right': seq<int>, seen: seq<bool>, seen': seq<bool>) {
    && |right'| == |right| == |seen'| == |seen|
    && forall r :: 0 <= r < |seen| && seen[r] ==> seen'[r] && right'[r] == right[r]
  }

  /** One more left node, ilhs, is in use; dead nodes keep their partners. Only the entry of the node that
      ilhs was linked to before is outdated. */
  ghost predicate Augmented(g: MatchMatrix, left: seq<int>, right: seq<int>, left': seq<int>, right': seq<int>,
                            ilhs: int, dead: set<int>)
    requires 0 <= ilhs < |left| && |right| == |right'| && forall r :: r in dead ==> 0 <= r < |right|
  {
    && |left'| == |left| && LeftOk(g, left', right') && RightOk(left', right', left[ilhs])
    && left'[ilhs] != UNUSED && left'[ilhs] != left[ilhs]
    && (forall l :: 0 <= l < |left| && l != ilhs ==> (left'[l] == UNUSED <==> left[l] == UNUSED))
    && (forall r :: r in dead ==> right'[r] == right[r])
  }

  /** The nodes that were seen in between are all linked, to left nodes that only see seen nodes. */
  ghost predicate DeadEnd(g: MatchMatrix, right: seq<int>, seen: seq<bool>, seen': seq<bool>) {
    && |right| == |seen| == |seen'|
    && forall r :: 0 <= r < |seen| && seen'[r] && !seen[r] ==>
         right[r] != UNUSED && NeighboursIn(g, right[r], SeenSet(seen'))
  }

  ghost function SeenSet(seen: seq<bool>): set<int> {
    set r | 0 <= r < |seen| && seen[r]
  }

  ghost function Unseen(seen: seq<bool>): set<int> {
    set r | 0 <= r < |seen| && !seen[r]
  }

  /** Linking l and r keeps the vectors consistent when r is unused or its old partner has moved on;
      only the node l was linked to before is left with an outdated entry. */
  lemma AddFlow(g: MatchMatrix, left: seq<int>, right: seq<int>, l: int, r: int)
    requires LeftOk(g, left, right) && RightOk(left, right, r)
    requires 0 <= l < |left| && 0 <= r < |right| && g.HasEdge(l, r) && left[l] != r
    requires right[r] == UNUSED || (0 <= right[r] < |left| && left[right[r]] != r)
    ensures LeftOk(g, left[l := r], right[r := l]) && RightOk(left[l := r], right[r := l], left[l])
  {
  }

  class MaxBipartiteMatchState {
    const graph: MatchMatrix
    const left: array<int>
    const right: array<int>

    ghost predicate Valid()
      reads this, left, right
    {
      left != right && Mutual(graph, left[..], right[..])
    }

    constructor (graph: MatchMatrix)
      ensures Valid() && this.graph == graph && fresh(left) && fresh(right)
      ensures forall l :: 0 <= l < left.Length ==> left[l] == UNUSED
    {
      this.graph := graph;
      left := new int[graph.lhsSize](_ => UNUSED);
      right := new int[graph.rhsSize](_ => UNUSED);
    }

    /** Depth-first search for an augmenting path from ilhs; `dead` is a set known to lead nowhere. */
    method TryAugment(ilhs: int, seen: array<bool>, ghost dead: set<int>) returns (ok: bool)
      requires Valid() && 0 <= ilhs < graph.lhsSize && seen.Length == graph.rhsSize
      requires left[ilhs] != UNUSED ==> seen[left[ilhs]]
      requires Dead(graph, right[..], dead)
      modifies left, right, seen
      ensures KeepsSeen(old(right[..]), right[..], old(seen[..]), seen[..])
      ensures if ok then Augmented(graph, old(left[..]), old(right[..]), left[..], right[..], ilhs, dead)
              else left[..] == old(left[..]) && right[..] == old(right[..])
      ensures !ok ==> NeighboursIn(graph, ilhs, SeenSet(seen[..])) && DeadEnd(graph, right[..], old(seen[..]), seen[..])
      ensures NeighboursIn(graph, ilhs, dead) ==> !ok
      decreases Unseen(seen[..]), 1
    {
      var irhs := 0;
      while irhs < graph.rhsSize
        invariant 0 <= irhs <= graph.rhsSize
        invariant left[..] == old(left[..]) && right[..] == old(right[..])
        invariant KeepsSeen(right[..], right[..], old(seen[..]), seen[..])
        invariant forall r :: 0 <= r < irhs && graph.HasEdge(ilhs, r) ==> seen[r]
        invariant DeadEnd(graph, right[..], old(seen[..]), seen[..])
      {
        if !seen[irhs] && graph.HasEdge(ilhs, irhs) {
          assert Unseen(seen[..]) <= Unseen(old(seen[..]));
          ok := TryEdge(ilhs, irhs, seen, dead);
          if ok {
            return true;
          }
        }
        irhs := irhs + 1;
      }
      return false;
    }

    /** Follows one available edge: to the sink, or on through the left node that irhs is linked to. */
    method TryEdge(ilhs: int, irhs: int, seen: array<bool>, ghost dead: set<int>) returns (ok: bool)
      requires Valid() && 0 <= ilhs < graph.lhsSize && seen.Length == graph.rhsSize
      requires left[ilhs] != UNUSED ==> seen[left[ilhs]]
      requires Dead(graph, right[..], dead)
      requires 0 <= irhs < graph.rhsSize && !seen[irhs] && graph.HasEdge(ilhs, irhs)
      modifies left, right, seen
      ensures KeepsSeen(old(right[..]), right[..], old(seen[..]), seen[..]) && seen[irhs]
      ensures if ok then Augmented(graph, old(left[..]), old(right[..]), left[..], right[..], ilhs, dead)
              else left[..] == old(left[..]) && right[..] == old(right[..])
      ensures !ok ==> DeadEnd(graph, right[..], old(seen[..]), seen[..])
      ensures irhs in dead ==> !ok
      decreases Unseen(seen[..]), 0
    {
      seen[irhs] := true;
      assert irhs in Unseen(old(seen[..])) && irhs !in Unseen(seen[..]);
      assert Unseen(seen[..]) < Unseen(old(seen[..]));
      ok := right[irhs] == UNUSED;
      if !ok {
        ok := TryAugment(right[irhs], seen, dead);
      }
      if ok {
        AddFlow(graph, left[..], right[..], ilhs, irhs);
        left[ilhs] := irhs;
        right[irhs] := ilhs;
      }
    }

    /** The edges of a maximum matching, in the order of the left nodes. */
    method Compute() returns (pairs: seq<(int, int)>)
      requires Valid() && forall l :: 0 <= l < left.Length ==> left[l] == UNUSED
      modifies left, right
      ensures Valid()
      ensures forall i, j :: 0 <= i < j < |pairs| ==> pairs[i].0 < pairs[j].0
      ensures Elements(pairs) <= graph.edges && IsMatching(graph, Elements(pairs))
      ensures forall m :: m <= graph.edges && IsMatching(graph, m) ==> |m| <= |pairs|
    {
      ghost var dead := {};
      var seen := new bool[graph.rhsSize];
      for ilhs := 0 to graph.lhsSize
        invariant Valid() && fresh(seen) && seen.Length == graph.rhsSize && Dead(graph, right[..], dead)
        invariant forall l :: 0 <= l < ilhs && left[l] == UNUSED ==> NeighboursIn(graph, l, dead)
        invariant forall l :: ilhs <= l < graph.lhsSize ==> left[l] == UNUSED
      {
        // the source checks this at run time
        assert left[ilhs] == UNUSED;
        seen := new bool[graph.rhsSize](_ => false);
        var ok := TryAugment(ilhs, seen, dead);
        if !ok {
          dead := dead + SeenSet(seen[..]);
        }
      }
      pairs := ReadPairs();
      forall m | IsMatching(graph, m) ensures |m| <= |pairs| {
        NoLargerMatching(graph, left[..], right[..], dead, m);
      }
    }

    /** The pairs recorded in `left`. */
    method ReadPairs() returns (pairs: seq<(int, int)>)
      requires Valid()
      ensures forall i, j :: 0 <= i < j < |pairs| ==> pairs[i].0 < pairs[j].0
      ensures IsMatching(graph, Elements(pairs)) && |pairs| == |Used(left[..])|
    {
      pairs := [];
      for ilhs := 0 to left.Length
        invariant forall i :: 0 <= i < |pairs| ==>
                    0 <= pairs[i].0 < ilhs && left[pairs[i].0] == pairs[i].1 != UNUSED
        invariant forall i, j :: 0 <= i < j < |pairs| ==> pairs[i].0 < pairs[j].0
        invariant |pairs| == |Used(left[..ilhs])|
      {
        var irhs := left[ilhs];
        assert left[..ilhs + 1] == left[..ilhs] + [irhs];
        if irhs == UNUSED {
          assert Used(left[..ilhs + 1]) == Used(left[..ilhs]);
          continue;
        }
        assert Used(left[..ilhs + 1]) == Used(left[..ilhs]) + {ilhs};
        pairs := pairs + [(ilhs, irhs)];
      }
      assert left[..left.Length] == left[..];
    }
  }

  ghost function Elements(pairs: seq<(int, int)>): set<(int, int)> {
    set i | 0 <= i < |pairs| :: pairs[i]
  }

  /** The left nodes in use. */
  ghost function Used(left: seq<int>): set<int> {
    set l | 0 <= l < |left| && left[l] != UNUSED
  }

  // ---------- Optimality ----------

  lemma {:induction false} DistinctLefts(m: set<(int, int)>, s: set<int>)
    requires forall e :: e in m ==> e.0 in s
    requires forall e, f :: e in m && f in m && e != f ==> e.0 != f.0
    ensures |m| <= |s|
  {
    if m != {} {
      var e :| e in m;
      DistinctLefts(m - {e}, s - {e.0});
    }
  }

  lemma {:induction false} DistinctRights(m: set<(int, int)>, s: set<int>)
    requires forall e :: e in m ==> e.1 in s
    requires forall e, f :: e in m && f in m && e != f ==> e.1 != f.1
    ensures |m| <= |s|
  {
    if m != {} {
      var e :| e in m;
      DistinctRights(m - {e}, s - {e.1});
    }
  }

  /** The left partners of a set of right nodes are no fewer than the right nodes. */
  lemma {:induction false} PartnersCount(left: seq<int>, right: seq<int>, rs: set<nat>, ls: set<int>)
    requires RightOk(left, right, UNUSED)
    requires forall r :: r in rs ==> 0 <= r < |right| && right[r] != UNUSED && right[r] in ls
    ensures |rs| <= |ls|
  {
    if rs != {} {
      var r :| r in rs;
      PartnersCount(left, right, rs - {r}, ls - {right[r]});
    }
  }

  lemma SplitSize<T>(s: set<T>, part: set<T>)
    requires part <= s
    ensures |s| == |part| + |s - part|
  {
    assert s == part + (s - part);
  }

  /** If every unused left node only sees dead right nodes, no matching uses more left nodes. */
  lemma NoLargerMatching(g: MatchMatrix, left: seq<int>, right: seq<int>, dead: set<int>, m: set<(int, int)>)
    requires Mutual(g, left, right) && Dead(g, right, dead)
    requires forall l :: 0 <= l < |left| && left[l] == UNUSED ==> NeighboursIn(g, l, dead)
    requires IsMatching(g, m)
    ensures |m| <= |Used(left)|
  {
    var partners := set r | r in dead :: right[r];
    var used := Used(left);
    var confined := set e | e in m && (e.0 in partners || e.0 !in used);
    var rest := m - confined;
    DistinctRights(confined, dead);
    DistinctLefts(rest, used - partners);
    PartnersCount(left, right, dead, partners);
    assert partners <= used;
    SplitSize(used, partners);
    SplitSize(m, confined);
  }
}
