/** The replacement policy (src/buffer/lru_replacer.cpp): a list of frames, most recently released first,
    and a map from each frame to its place in the list. */
module LruReplacer {

  type FrameID = int

  /** A list cell; its handle plays the part of a list iterator, which stays valid while other cells come and go. */
  datatype Cell = Cell(handle: nat, frame: FrameID)

  ghost predicate InStep(cache: seq<Cell>, index: map<FrameID, nat>) {
    && (forall i, j :: 0 <= i < j < |cache| ==> cache[i].frame != cache[j].frame && cache[i].handle != cache[j].handle)
    && (forall i :: 0 <= i < |cache| ==> cache[i].frame in index && index[cache[i].frame] == cache[i].handle)
    && (forall f {:trigger HasFrame(cache, f)} :: f in index ==> HasFrame(cache, f))
  }

  ghost predicate HasFrame(cache: seq<Cell>, f: FrameID) {
    exists i :: 0 <= i < |cache| && cache[i].frame == f
  }

  /** Removes the cell that the handle denotes. */
  function Erase(cache: seq<Cell>, handle: nat): (r: seq<Cell>)
    ensures |r| <= |cache|
  {
    if cache == [] then [] else if cache[0].handle == handle then cache[1..] else [cache[0]] + Erase(cache[1..], handle)
  }

  lemma {:induction false} EraseAt(cache: seq<Cell>, i: nat)
    requires i < |cache| && forall a, b :: 0 <= a < b < |cache| ==> cache[a].handle != cache[b].handle
    ensures var r := Erase(cache, cache[i].handle);
            |r| == |cache| - 1 && forall j :: 0 <= j < |r| ==> r[j] == cache[if j < i then j else j + 1]
  {
    if i > 0 {
      var rest := cache[1..];
      assert rest[i - 1] == cache[i];
      EraseAt(rest, i - 1);
    }
  }

  /** The place of a frame that the index knows. */
  lemma PlaceOf(cache: seq<Cell>, index: map<FrameID, nat>, f: FrameID) returns (i: nat)
    requires InStep(cache, index) && f in index
    ensures i < |cache| && cache[i].frame == f && cache[i].handle == index[f]
  {
    assert HasFrame(cache, f);
    i :| 0 <= i < |cache| && cache[i].frame == f;
  }

  lemma EraseInStep(cache: seq<Cell>, index: map<FrameID, nat>, i: nat)
    requires InStep(cache, index) && i < |cache|
    ensures InStep(Erase(cache, cache[i].handle), index - {cache[i].frame})
  {
    EraseAt(cache, i);
    var f, cache' := cache[i].frame, Erase(cache, cache[i].handle);
    forall g | g in index && g != f ensures HasFrame(cache', g) {
      var j := PlaceOf(cache, index, g);
      assert cache'[if j < i then j else j - 1].frame == g;
    }
  }

  lemma PushInStep(cache: seq<Cell>, index: map<FrameID, nat>, c: Cell)
    requires InStep(cache, index) && c.frame !in index
    requires forall i :: 0 <= i < |cache| ==> cache[i].handle < c.handle
    ensures InStep([c] + cache, index[c.frame := c.handle])
  {
    var cache' := [c] + cache;
    forall f | f in index || f == c.frame ensures HasFrame(cache', f) {
      if f == c.frame {
        assert cache'[0].frame == f;
      } else {
        var i := PlaceOf(cache, index, f);
        assert cache'[i + 1].frame == f;
      }
    }
  }

  class LruReplacer {
    var lruCache: seq<Cell>
    var lruMap: map<FrameID, nat>
    var nextHandle: nat
    /** When each candidate's current unpinned period began. */
    ghost var since: map<FrameID, nat>
    ghost var clock: nat

    /** List and map agree, and the list is ordered by release time, latest first. */
    ghost predicate Valid()
      reads this
    {
      && InStep(lruCache, lruMap)
      && (forall i :: 0 <= i < |lruCache| ==> lruCache[i].handle < nextHandle)
      && since.Keys == lruMap.Keys
      && (forall f :: f in since ==> since[f] < clock)
      && (forall i, j :: 0 <= i < j < |lruCache| ==> since[lruCache[j].frame] < since[lruCache[i].frame])
    }

    ghost function Candidates(): set<FrameID>
      reads this
    {
      lruMap.Keys
    }

    constructor ()
      ensures Valid() && Candidates() == {}
    {
      lruCache, lruMap, nextHandle := [], map[], 0;
      since, clock := map[], 0;
    }

    method Remove(frame: FrameID)
      requires Valid()
      modifies this
      ensures Valid() && Candidates() == old(Candidates()) - {frame}
      ensures since == old(since) - {frame} && clock == old(clock)
    {
      if frame !in lruMap {
        return;
      }
      ghost var i := PlaceOf(lruCache, lruMap, frame);
      EraseInStep(lruCache, lruMap, i);
      EraseAt(lruCache, i);
      lruCache := Erase(lruCache, lruMap[frame]);
      lruMap := lruMap - {frame};
      since := since - {frame};
    }

    /** Takes out the candidate that has been unpinned for the longest time. */
    method Victim() returns (found: bool, frame: FrameID)
      requires Valid()
      modifies this
      ensures Valid()
      ensures found <==> old(Candidates()) != {}
      ensures found ==>
                && frame in old(Candidates()) && (forall f :: f in old(Candidates()) ==> old(since)[frame] <= old(since)[f])
                && Candidates() == old(Candidates()) - {frame} && since == old(since) - {frame}
      ensures !found ==> Candidates() == {} && since == old(since)
    {
      frame := 0;
      if lruCache == [] {
        forall f ensures f !in lruMap {
          assert !HasFrame(lruCache, f);
        }
        return false, frame;
      }
      frame := lruCache[|lruCache| - 1].frame;
      forall f | f in lruMap ensures since[frame] <= since[f] {
        assert HasFrame(lruCache, f);
      }
      assert lruCache[|lruCache| - 1].frame in lruMap;
      Remove(frame);
      return true, frame;
    }

    method Pin(frame: FrameID)
      requires Valid()
      modifies this
      ensures Valid() && Candidates() == old(Candidates()) - {frame}
      ensures since == old(since) - {frame}
    {
      Remove(frame);
    }

    /** Makes a frame a candidate; doing so again has no effect. */
    method Unpin(frame: FrameID)
      requires Valid()
      modifies this
      ensures Valid() && Candidates() == old(Candidates()) + {frame}
      ensures frame in old(Candidates()) ==> since == old(since)
      ensures frame !in old(Candidates()) ==>
                && since == old(since)[frame := since[frame]]
                && forall f :: f in old(Candidates()) ==> since[f] < since[frame]
    {
      if frame in lruMap {
        return;
      }
      PushInStep(lruCache, lruMap, Cell(nextHandle, frame));
      lruCache := [Cell(nextHandle, frame)] + lruCache;
      lruMap := lruMap[frame := nextHandle];
      nextHandle := nextHandle + 1;
      since := since[frame := clock];
      clock := clock + 1;
    }

    method NumCandidates() returns (n: nat)
      requires Valid()
      ensures n == |Candidates()|
    {
      n := |lruCache|;
      SizeInStep(lruCache, lruMap);
    }
  }

  lemma {:induction false} SizeInStep(cache: seq<Cell>, index: map<FrameID, nat>)
    requires InStep(cache, index)
    ensures |cache| == |index.Keys|
  {
    if cache == [] {
      forall f ensures f !in index {
        assert !HasFrame(cache, f);
      }
    } else {
      var f := cache[0].frame;
      EraseInStep(cache, index, 0);
      SizeInStep(cache[1..], index - {f});
      assert (index - {f}).Keys == index.Keys - {f};
    }
  }
}
