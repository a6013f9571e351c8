/** Whole runs of pool operations, for every client: the pool replies and reads as CacheStore says
    (src/buffer/buffer_pool_manager.cpp). */
module PoolRuns {
  import opened Basics
  import opened LruReplacer
  import opened BufferPool
  import opened CacheStore

  function PageOf(fr: Frame): Page {
    Page(fr.data, fr.pinCount, fr.isDirty)
  }

  ghost function Resident(p: Pool): map<PageKey, Page> {
    map k | k in p.table && 0 <= p.table[k] < |p.frames| :: PageOf(p.frames[p.table[k]])
  }

  ghost predicate SameFiles(disk: Disk, files: Disk) {
    forall k :: DiskAt(disk, k) == DiskAt(files, k)
  }

  ghost predicate IsIdle(p: Pool, since: map<FrameID, nat>, k: PageKey) {
    k in p.table && p.table[k] in since
  }

  ghost function IdleSince(p: Pool, since: map<FrameID, nat>, k: PageKey): int {
    if IsIdle(p, since, k) then since[p.table[k]] else -1
  }

  /** These are the idle pages, in the order in which they became idle. */
  ghost predicate IdleOrder(p: Pool, since: map<FrameID, nat>, idle: seq<PageKey>) {
    && (forall k {:trigger IsIdle(p, since, k)} {:trigger k in idle} :: IsIdle(p, since, k) <==> k in idle)
    && Increasing(p, since, idle)
  }

  ghost predicate Matches(p: Pool, since: map<FrameID, nat>, s: Store) {
    && PoolOk(p, NO_FRAME) && |p.frames| == s.size && since.Keys == p.cands
    && Resident(p) == s.pages && SameFiles(p.disk, s.files) && IdleOrder(p, since, s.idle)
    && WellFormed(s)
  }

  /** What a client sees of a page in the pool is what the store says. */
  lemma PageAt(p: Pool, since: map<FrameID, nat>, s: Store, k: PageKey)
    requires Matches(p, since, s)
    ensures k in p.table <==> k in s.pages
    ensures k in p.table ==>
              && 0 <= p.table[k] < |p.frames| && p.table[k] !in p.free && p.frames[p.table[k]].key == k
              && s.pages[k] == PageOf(p.frames[p.table[k]])
    ensures Logical(p, k) == Contents(s, k) && Pins(p, k) == PinsOf(s, k)
  {
    if k in p.table {
      assert EntryOk(p, k);
    }
    assert k in s.pages <==> k in Resident(p);
  }

  // ---------- Counting frames ----------

  ghost function Busy(free: seq<FrameID>, n: nat): set<FrameID> {
    set f | 0 <= f < n && f !in free
  }

  lemma {:induction false} BusyCount(free: seq<FrameID>, n: nat)
    ensures |Busy(free, n)| <= n
    ensures |Busy(free, n)| == n <==> forall f :: 0 <= f < n ==> f !in free
  {
    if n > 0 {
      BusyCount(free, n - 1);
      if n - 1 in free {
        assert Busy(free, n) == Busy(free, n - 1);
      } else {
        assert Busy(free, n) == Busy(free, n - 1) + {n - 1};
      }
    }
  }

  /** Pages and the frames they are in are equally many. */
  lemma {:induction false} SameNumber(p: Pool, keys: set<PageKey>, fs: set<FrameID>)
    requires forall k :: k in keys ==> k in p.table && p.table[k] in fs
    requires forall k, k' :: k in keys && k' in keys && k != k' ==> p.table[k] != p.table[k']
    requires forall f {:trigger f in fs} :: f in fs ==> 0 <= f < |p.frames| && p.frames[f].key in keys && p.table[p.frames[f].key] == f
    ensures |keys| == |fs|
  {
    if keys == {} {
      assert fs == {};
    } else {
      var k :| k in keys;
      forall f | f in fs - {p.table[k]} ensures p.frames[f].key in keys - {k} {
        assert f in fs;
      }
      SameNumber(p, keys - {k}, fs - {p.table[k]});
    }
  }

  /** There is a free frame exactly if there are more frames than resident pages. */
  lemma FreeExactly(p: Pool)
    requires PoolOk(p, NO_FRAME)
    ensures p.free != [] <==> |p.table| < |p.frames|
  {
    var fs := Busy(p.free, |p.frames|);
    forall k | k in p.table.Keys ensures p.table[k] in fs && p.frames[p.table[k]].key == k {
      assert EntryOk(p, k);
    }
    forall f | f in fs ensures p.frames[f].key in p.table.Keys && p.table[p.frames[f].key] == f {
      assert FrameOk(p, f);
    }
    SameNumber(p, p.table.Keys, fs);
    BusyCount(p.free, |p.frames|);
    assert |p.table.Keys| == |p.table|;
    if p.free != [] {
      assert p.free[0] in p.free;
    }
  }

  lemma ResidentSize(p: Pool, since: map<FrameID, nat>, s: Store)
    requires Matches(p, since, s)
    ensures p.free != [] <==> |s.pages| < s.size
  {
    FreeExactly(p);
    forall k ensures k in p.table.Keys <==> k in s.pages.Keys {
      PageAt(p, since, s, k);
    }
    assert p.table.Keys == s.pages.Keys;
    assert |p.table.Keys| == |p.table| && |s.pages.Keys| == |s.pages|;
  }

  /** Every frame is pinned exactly if there is no free frame and no idle page. */
  lemma RefusesExactly(p: Pool, since: map<FrameID, nat>, s: Store, k: PageKey)
    requires Matches(p, since, s)
    ensures k !in p.table && AllPinned(p) <==> IsRefused(s, k)
  {
    ResidentSize(p, since, s);
    PageAt(p, since, s, k);
    if p.free != [] {
      assert FrameOk(p, p.free[0]);
    }
    if s.idle != [] {
      assert s.idle[0] in s.idle;
      assert IsIdle(p, since, s.idle[0]);
      assert p.table[s.idle[0]] in since.Keys && FrameOk(p, p.table[s.idle[0]]);
    }
    if p.free == [] && s.idle == [] {
      forall f | 0 <= f < |p.frames| ensures p.frames[f].pinCount > 0 {
        assert FrameOk(p, f);
        assert f in p.cands <==> f in since.Keys;
        assert IsIdle(p, since, p.frames[f].key) <==> p.frames[f].key in s.idle;
      }
    }
  }

  // ---------- Making room ----------

  lemma FirstIsLeast(p: Pool, since: map<FrameID, nat>, idle: seq<PageKey>, i: nat)
    requires Increasing(p, since, idle) && i < |idle|
    ensures IdleSince(p, since, idle[0]) <= IdleSince(p, since, idle[i])
    ensures IdleSince(p, since, idle[0]) == IdleSince(p, since, idle[i]) ==> i == 0
  {
  }

  /** The frame with the earliest start is that of the first idle page. */
  lemma OldestIsFirst(p: Pool, since: map<FrameID, nat>, s: Store, f: FrameID)
    requires Matches(p, since, s) && f in since && forall g :: g in since ==> since[f] <= since[g]
    ensures s.idle != [] && 0 <= f < |p.frames| && p.frames[f].key == s.idle[0]
    ensures s.idle[0] in p.table && p.table[s.idle[0]] == f
  {
    assert f in since.Keys && f in p.cands;
    assert FrameOk(p, f);
    var k := p.frames[f].key;
    assert IsIdle(p, since, k);
    var i :| 0 <= i < |s.idle| && s.idle[i] == k;
    assert s.idle[0] in s.idle;
    assert IsIdle(p, since, s.idle[0]);
    FirstIsLeast(p, since, s.idle, i);
  }

  lemma EvictView(p: Pool, since: map<FrameID, nat>, s: Store, f: FrameID)
    requires Matches(p, since, s) && f in since && (forall g :: g in since ==> since[f] <= since[g])
    ensures 0 <= f < |p.frames| && s.idle != []
    ensures Resident(Evict(p, f)) == WithoutOldest(s).pages && SameFiles(Evict(p, f).disk, WithoutOldest(s).files)
    ensures IdleOrder(Evict(p, f), since - {f}, WithoutOldest(s).idle)
  {
    OldestIsFirst(p, since, s, f);
    var k, p', s' := s.idle[0], Evict(p, f), WithoutOldest(s);
    forall x ensures x in Resident(p') <==> x in s'.pages {
      PageAt(p, since, s, x);
    }
    forall x | x in Resident(p') ensures Resident(p')[x] == s'.pages[x] {
      PageAt(p, since, s, x);
      PageAt(p, since, s, k);
    }
    PageAt(p, since, s, k);
    forall x ensures DiskAt(p'.disk, x) == DiskAt(s'.files, x) {
      assert DiskAt(p.disk, x) == DiskAt(s.files, x);
    }
    EvictOrder(p, since, s, f);
  }

  lemma EvictOrder(p: Pool, since: map<FrameID, nat>, s: Store, f: FrameID)
    requires Matches(p, since, s) && s.idle != [] && 0 <= f < |p.frames| && f in since
    requires p.frames[f].key == s.idle[0] && s.idle[0] in p.table && p.table[s.idle[0]] == f
    ensures IdleOrder(Evict(p, f), since - {f}, s.idle[1..])
  {
    var k, rest, p', since' := s.idle[0], s.idle[1..], Evict(p, f), since - {f};
    assert s.idle == [k] + rest;
    forall x ensures (IsIdle(p', since', x) <==> x in rest) && (x != k ==> IdleSince(p', since', x) == IdleSince(p, since, x)) {
      PageAt(p, since, s, x);
      PageAt(p, since, s, k);
      assert x in s.idle <==> x == k || x in rest;
      assert IsIdle(p, since, x) <==> x in s.idle;
    }
  }

  /** Taking a frame makes room in the store. */
  lemma TakenView(p: Pool, since: map<FrameID, nat>, s: Store, f: FrameID)
    requires Matches(p, since, s) && 0 <= f < |p.frames| && (p.free != [] ==> f !in since)
    requires p.free == [] ==> f in since && forall g :: g in since ==> since[f] <= since[g]
    ensures Resident(Taken(p, f)) == WithRoom(s).pages && SameFiles(Taken(p, f).disk, WithRoom(s).files)
    ensures IdleOrder(Taken(p, f), since - {f}, WithRoom(s).idle)
  {
    ResidentSize(p, since, s);
    if p.free == [] {
      EvictView(p, since, s, f);
    } else {
      FreeView(p, since, s, f);
    }
  }

  lemma FreeView(p: Pool, since: map<FrameID, nat>, s: Store, f: FrameID)
    requires Matches(p, since, s) && p.free != [] && f !in since
    ensures var q := p.(free := p.free[1..]);
            Resident(q) == s.pages && SameFiles(q.disk, s.files) && IdleOrder(q, since - {f}, s.idle)
  {
    var q := p.(free := p.free[1..]);
    assert since - {f} == since;
    assert Resident(q) == Resident(p);
    SameOrder(p, q, since, s.idle);
  }

  // ---------- The page itself ----------

  lemma InstallView(q: Pool, since: map<FrameID, nat>, f: FrameID, k: PageKey, data: Data, disk: Disk, idle: seq<PageKey>)
    requires PoolOk(q, f) && 0 <= f < |q.frames| && k !in q.table && f !in since && IdleOrder(q, since, idle)
    ensures Resident(Install(q, f, k, data, disk)) == Resident(q)[k := Page(data, 1, false)]
    ensures IdleOrder(Install(q, f, k, data, disk), since, idle)
  {
    var p' := Install(q, f, k, data, disk);
    forall x
      ensures x in Resident(p') <==> x == k || x in Resident(q)
      ensures x in Resident(q) ==> x != k && Resident(p')[x] == Resident(q)[x]
      ensures (IsIdle(p', since, x) <==> IsIdle(q, since, x)) && IdleSince(p', since, x) == IdleSince(q, since, x)
    {
      assert x in q.table ==> EntryOk(q, x);
    }
  }

  /** Changing what a frame holds, without moving any page and without changing what is idle. */
  lemma TouchView(p: Pool, since: map<FrameID, nat>, s: Store, k: PageKey, fr: Frame, cands: set<FrameID>, disk: Disk)
    requires Matches(p, since, s) && k in p.table && fr.key == k
    ensures 0 <= p.table[k] < |p.frames|
    ensures Resident(Touch(p, p.table[k], fr, cands, disk)) == s.pages[k := PageOf(fr)]
  {
    PageAt(p, since, s, k);
    var p' := Touch(p, p.table[k], fr, cands, disk);
    forall x
      ensures x in Resident(p') <==> x in s.pages
      ensures x in s.pages ==> Resident(p')[x] == if x == k then PageOf(fr) else s.pages[x]
    {
      PageAt(p, since, s, x);
    }
  }

  lemma SameOrder(p: Pool, p': Pool, since: map<FrameID, nat>, idle: seq<PageKey>)
    requires IdleOrder(p, since, idle) && p'.table == p.table
    ensures IdleOrder(p', since, idle)
  {
    forall x ensures IsIdle(p', since, x) == IsIdle(p, since, x) && IdleSince(p', since, x) == IdleSince(p, since, x) {
    }
  }

  // ---------- The commands ----------

  /** Bringing in a page with these contents. */
  lemma EnterMatches(p: Pool, since: map<FrameID, nat>, s: Store, f: FrameID, k: PageKey, data: Data, disk: Disk, files: Disk)
    requires Matches(p, since, s) && MayTake(p, since, f) && k !in p.table && !IsRefused(s, k)
    ensures 0 <= f < |p.frames|
    ensures var p', r := Install(Taken(p, f), f, k, data, disk), WithRoom(s);
            PoolOk(p', NO_FRAME) && (since - {f}).Keys == p'.cands && SameFiles(disk, files) ==>
              Matches(p', since - {f}, Enter(r, k, data, files))
  {
    TakenOk(p, since, f);
    TakenView(p, since, s, f);
    var q, r := Taken(p, f), WithRoom(s);
    InstallView(q, since - {f}, f, k, data, disk, r.idle);
    PageAt(p, since, s, k);
    WithRoomWellFormed(s);
    EnterWellFormed(r, k, data, files);
  }

  ghost predicate Increasing(p: Pool, since: map<FrameID, nat>, idle: seq<PageKey>) {
    forall i, j :: 0 <= i < j < |idle| ==> IdleSince(p, since, idle[i]) < IdleSince(p, since, idle[j])
  }

  lemma {:induction false} WithoutIncreasing(p: Pool, since: map<FrameID, nat>, idle: seq<PageKey>, k: PageKey)
    requires Distinct(idle) && Increasing(p, since, idle)
    ensures Increasing(p, since, Without(idle, k))
  {
    if idle != [] && idle[0] != k {
      var tail := idle[1..];
      WithoutIncreasing(p, since, tail, k);
      WithoutElements(tail, k);
      var rest := Without(tail, k);
      forall j | 0 <= j < |rest| ensures IdleSince(p, since, idle[0]) < IdleSince(p, since, rest[j]) {
        assert rest[j] in rest;
        var h :| 0 <= h < |tail| && tail[h] == rest[j];
        assert tail[h] == idle[h + 1];
      }
      assert Increasing(p, since, [idle[0]] + rest);
    }
  }

  lemma PinOrder(p: Pool, since: map<FrameID, nat>, s: Store, k: PageKey, p': Pool)
    requires Matches(p, since, s) && k in p.table && p'.table == p.table
    ensures IdleOrder(p', since - {p.table[k]}, Without(s.idle, k))
  {
    var since', rest := since - {p.table[k]}, Without(s.idle, k);
    WithoutElements(s.idle, k);
    WithoutIncreasing(p, since, s.idle, k);
    forall x
      ensures IsIdle(p', since', x) <==> IsIdle(p, since, x) && x != k
      ensures x != k ==> IdleSince(p', since', x) == IdleSince(p, since, x)
    {
      PageAt(p, since, s, x);
      PageAt(p, since, s, k);
    }
    forall i | 0 <= i < |rest| ensures rest[i] != k {
      assert rest[i] in rest;
    }
  }

  lemma PinView(p: Pool, since: map<FrameID, nat>, s: Store, k: PageKey)
    requires Matches(p, since, s) && k in p.table && 0 <= p.table[k] < |p.frames|
    ensures k in s.pages && Resident(PinnedMore(p, k)) == PinAgain(s, k).pages
  {
    PageAt(p, since, s, k);
    var f := p.table[k];
    var fr := p.frames[f].(pinCount := p.frames[f].pinCount + 1);
    TouchView(p, since, s, k, fr, p.cands - {f}, p.disk);
    assert PageOf(fr) == s.pages[k].(pins := s.pages[k].pins + 1);
    assert PinnedMore(p, k) == Touch(p, f, fr, p.cands - {f}, p.disk);
  }

  /** Pinning a resident page again. */
  lemma PinMatches(p: Pool, since: map<FrameID, nat>, s: Store, k: PageKey)
    requires Matches(p, since, s) && k in p.table
    ensures 0 <= p.table[k] < |p.frames|
    ensures var p', since' := PinnedMore(p, k), since - {p.table[k]};
            PoolOk(p', NO_FRAME) && since'.Keys == p'.cands ==> k in s.pages && Matches(p', since', PinAgain(s, k))
  {
    PageAt(p, since, s, k);
    PinView(p, since, s, k);
    PinAgainWellFormed(s, k);
    PinOrder(p, since, s, k, PinnedMore(p, k));
  }

  /** Changing a resident page without touching its pins. */
  lemma EditMatches(p: Pool, since: map<FrameID, nat>, s: Store, k: PageKey, fr: Frame, disk: Disk, files: Disk)
    requires Matches(p, since, s) && k in p.table && fr.key == k && SameFiles(disk, files)
    ensures 0 <= p.table[k] < |p.frames|
    ensures fr.pinCount == p.frames[p.table[k]].pinCount && PoolOk(Touch(p, p.table[k], fr, p.cands, disk), NO_FRAME) ==>
              Matches(Touch(p, p.table[k], fr, p.cands, disk), since, s.(pages := s.pages[k := PageOf(fr)], files := files))
  {
    PageAt(p, since, s, k);
    TouchView(p, since, s, k, fr, p.cands, disk);
    SameOrder(p, Touch(p, p.table[k], fr, p.cands, disk), since, s.idle);
    if fr.pinCount == p.frames[p.table[k]].pinCount {
      TouchWellFormed(s, k, PageOf(fr), s.idle, files);
    }
  }

  /** Dropping the last pin. */
  /** Frame f has become idle, later than all the others. */
  ghost predicate BecomesIdle(since: map<FrameID, nat>, since': map<FrameID, nat>, f: FrameID) {
    f !in since && f in since' && since' == since[f := since'[f]] && forall g :: g in since ==> since[g] < since'[f]
  }

  lemma LastPinOrder(p: Pool, since: map<FrameID, nat>, s: Store, p': Pool, since': map<FrameID, nat>, k: PageKey)
    requires Matches(p, since, s) && k in p.table && p'.table == p.table && BecomesIdle(since, since', p.table[k])
    ensures IdleOrder(p', since', s.idle + [k])
  {
    forall x
      ensures IsIdle(p', since', x) <==> IsIdle(p, since, x) || x == k
      ensures IsIdle(p, since, x) ==> x != k && IdleSince(p', since', x) == IdleSince(p, since, x) < IdleSince(p', since', k)
    {
      PageAt(p, since, s, x);
      PageAt(p, since, s, k);
    }
    forall i | 0 <= i < |s.idle| ensures IsIdle(p, since, s.idle[i]) {
      assert s.idle[i] in s.idle;
    }
  }

  lemma UnpinMatches(p: Pool, since: map<FrameID, nat>, s: Store, p': Pool, since': map<FrameID, nat>, k: PageKey, isDirty: bool)
    requires Matches(p, since, s) && k in p.table && p' == Unpinned(p, k, isDirty)
    requires PoolOk(p', NO_FRAME) && since'.Keys == p'.cands
    requires Pins(p, k) != 1 ==> since' == since
    requires Pins(p, k) == 1 ==> BecomesIdle(since, since', p.table[k])
    ensures k in s.pages && Matches(p', since', DropPin(s, k, isDirty))
  {
    PageAt(p, since, s, k);
    DropPinWellFormed(s, k, isDirty);
    UnpinView(p, since, s, k, isDirty);
    if Pins(p, k) == 1 {
      LastPinOrder(p, since, s, p', since', k);
    } else {
      SameOrder(p, p', since, s.idle);
    }
  }

  lemma UnpinView(p: Pool, since: map<FrameID, nat>, s: Store, k: PageKey, isDirty: bool)
    requires Matches(p, since, s) && k in p.table
    ensures k in s.pages && Resident(Unpinned(p, k, isDirty)) == DropPin(s, k, isDirty).pages
  {
    var p' := Unpinned(p, k, isDirty);
    PageAt(p, since, s, k);
    assert PageOf(p'.frames[p.table[k]]) == DropPin(s, k, isDirty).pages[k];
    TouchView(p, since, s, k, p'.frames[p.table[k]], p'.cands, p.disk);
    assert p' == Touch(p, p.table[k], p'.frames[p.table[k]], p'.cands, p.disk);
  }

  // ---------- Runs ----------

  ghost predicate Follows(pool: BufferPool, s: Store)
    reads pool, pool.frames, pool.replacer
  {
    pool.Valid() && Matches(pool.Snapshot(), pool.replacer.since, s)
  }

  /** Carries out one command. The store tells the reply and what the pool holds afterwards, the page that leaves included. */
  method Execute(pool: BufferPool, c: Command, ghost s: Store) returns (r: Reply)
    requires Follows(pool, s) && Allowed(s, c)
    modifies pool, pool.frames, pool.replacer
    ensures Follows(pool, Next(s, c)) && r == ReplyTo(s, c)
  {
    match c
    case Fetch(k) => r := ExecuteFetch(pool, k, s);
    case Append(k) => r := ExecuteAppend(pool, k, s);
    case Read(k) => r := ExecuteRead(pool, k, s);
    case Write(k, data) => r := ExecuteWrite(pool, k, data, s);
    case Unpin(k, isDirty) => r := ExecuteUnpin(pool, k, isDirty, s);
    case Flush(k) => r := ExecuteFlush(pool, k, s);
    case FlushAll => r := ExecuteFlushAll(pool, s);
  }

  method ExecuteFetch(pool: BufferPool, k: PageKey, ghost s: Store) returns (r: Reply)
    requires Follows(pool, s)
    modifies pool, pool.frames, pool.replacer
    ensures Follows(pool, Next(s, Fetch(k))) && r == ReplyTo(s, Fetch(k))
  {
    ghost var p, since := pool.Snapshot(), pool.replacer.since;
    RefusesExactly(p, since, s, k);
    PageAt(p, since, s, k);
    var f := pool.FetchPage(k);
    if f == None {
      return Refused;
    }
    ghost var p' := pool.Snapshot();
    if k in p.table {
      PinMatches(p, since, s, k);
    } else {
      EnterFetched(p, since, s, f.value, k);
    }
    return Pinned;
  }

  lemma EnterFetched(p: Pool, since: map<FrameID, nat>, s: Store, f: FrameID, k: PageKey)
    requires Matches(p, since, s) && MayTake(p, since, f) && k !in p.table && !IsRefused(s, k)
    ensures 0 <= f < |p.frames|
    ensures var p' := Fetched(p, k, f);
            PoolOk(p', NO_FRAME) && (since - {f}).Keys == p'.cands ==> Matches(p', since - {f}, Next(s, Fetch(k)))
  {
    TakenOk(p, since, f);
    TakenView(p, since, s, f);
    PageAt(p, since, s, k);
    var disk, files := Taken(p, f).disk, WithRoom(s).files;
    assert DiskAt(disk, k) == DiskAt(files, k);
    EnterMatches(p, since, s, f, k, DiskAt(disk, k), disk, files);
  }

  method ExecuteAppend(pool: BufferPool, k: PageKey, ghost s: Store) returns (r: Reply)
    requires Follows(pool, s) && k !in s.pages
    modifies pool, pool.frames, pool.replacer
    ensures Follows(pool, Next(s, Append(k))) && r == ReplyTo(s, Append(k))
  {
    ghost var p, since := pool.Snapshot(), pool.replacer.since;
    RefusesExactly(p, since, s, k);
    PageAt(p, since, s, k);
    var f := pool.AppendNewPage(k);
    if f == None {
      return Refused;
    }
    EnterAppended(p, since, s, f.value, k);
    return Pinned;
  }

  lemma SameFilesUpdate(disk: Disk, files: Disk, k: PageKey, data: Data)
    requires SameFiles(disk, files)
    ensures SameFiles(disk[k := data], files[k := data])
  {
    var disk', files' := disk[k := data], files[k := data];
    forall x ensures DiskAt(disk', x) == DiskAt(files', x) {
      assert DiskAt(disk, x) == DiskAt(files, x);
    }
  }

  lemma EnterAppended(p: Pool, since: map<FrameID, nat>, s: Store, f: FrameID, k: PageKey)
    requires Matches(p, since, s) && MayTake(p, since, f) && k !in p.table && !IsRefused(s, k)
    ensures 0 <= f < |p.frames|
    ensures var p' := Appended(p, k, f);
            PoolOk(p', NO_FRAME) && (since - {f}).Keys == p'.cands ==> Matches(p', since - {f}, Next(s, Append(k)))
  {
    TakenOk(p, since, f);
    TakenView(p, since, s, f);
    SameFilesUpdate(Taken(p, f).disk, WithRoom(s).files, k, ZeroPage());
    EnterMatches(p, since, s, f, k, ZeroPage(), Taken(p, f).disk[k := ZeroPage()], WithRoom(s).files[k := ZeroPage()]);
  }

  method ExecuteRead(pool: BufferPool, k: PageKey, ghost s: Store) returns (r: Reply)
    requires Follows(pool, s) && k in s.pages
    ensures r == ReplyTo(s, Read(k))
  {
    PageAt(pool.Snapshot(), pool.replacer.since, s, k);
    return Bytes(pool.frames[pool.pageTable[k]].data);
  }

  method ExecuteWrite(pool: BufferPool, k: PageKey, data: Data, ghost s: Store) returns (r: Reply)
    requires Follows(pool, s) && k in s.pages
    modifies pool, pool.frames
    ensures Follows(pool, Next(s, Write(k, data))) && r == ReplyTo(s, Write(k, data))
  {
    ghost var p, since := pool.Snapshot(), pool.replacer.since;
    WriteMatches(p, since, s, k, data);
    pool.WriteFrame(pool.pageTable[k], data);
    return Done;
  }

  lemma WriteMatches(p: Pool, since: map<FrameID, nat>, s: Store, k: PageKey, data: Data)
    requires Matches(p, since, s) && k in s.pages
    ensures k in p.table && 0 <= p.table[k] < |p.frames| && p.table[k] !in p.free
    ensures var p' := Written(p, p.table[k], data); PoolOk(p', NO_FRAME) ==> Matches(p', since, Next(s, Write(k, data)))
  {
    PageAt(p, since, s, k);
    EditMatches(p, since, s, k, p.frames[p.table[k]].(data := data), p.disk, s.files);
  }

  method ExecuteUnpin(pool: BufferPool, k: PageKey, isDirty: bool, ghost s: Store) returns (r: Reply)
    requires Follows(pool, s)
    modifies pool, pool.frames, pool.replacer
    ensures Follows(pool, Next(s, Unpin(k, isDirty))) && r == ReplyTo(s, Unpin(k, isDirty))
  {
    ghost var p, since := pool.Snapshot(), pool.replacer.since;
    PageAt(p, since, s, k);
    assert pool.PinCount(k) == Pins(p, k);
    var ok := pool.UnpinPage(k, isDirty);
    UnpinNext(p, since, s, pool.Snapshot(), pool.replacer.since, k, isDirty);
    UnpinReply(p, since, s, k, isDirty);
    return Flag(ok);
  }

  lemma UnpinReply(p: Pool, since: map<FrameID, nat>, s: Store, k: PageKey, isDirty: bool)
    requires Matches(p, since, s)
    ensures Next(s, Unpin(k, isDirty)) == if k in s.pages then DropPin(s, k, isDirty) else s
    ensures ReplyTo(s, Unpin(k, isDirty)) == Flag(k !in p.table || Pins(p, k) > 0)
  {
    PageAt(p, since, s, k);
  }

  lemma UnpinNext(p: Pool, since: map<FrameID, nat>, s: Store, p': Pool, since': map<FrameID, nat>, k: PageKey, isDirty: bool)
    requires Matches(p, since, s) && p' == Unpinned(p, k, isDirty) && PoolOk(p', NO_FRAME) && since'.Keys == p'.cands
    requires Pins(p, k) != 1 ==> since' == since
    requires Pins(p, k) == 1 ==> k in p.table && BecomesIdle(since, since', p.table[k])
    ensures Matches(p', since', if k in s.pages then DropPin(s, k, isDirty) else s)
  {
    PageAt(p, since, s, k);
    if k in p.table {
      UnpinMatches(p, since, s, p', since', k, isDirty);
    }
  }

  method ExecuteFlush(pool: BufferPool, k: PageKey, ghost s: Store) returns (r: Reply)
    requires Follows(pool, s)
    modifies pool, pool.frames
    ensures Follows(pool, Next(s, Flush(k))) && r == ReplyTo(s, Flush(k))
  {
    ghost var p, since := pool.Snapshot(), pool.replacer.since;
    var ok := pool.FlushPage(k);
    FlushMatches(p, since, s, k);
    return Flag(ok);
  }

  lemma FlushMatches(p: Pool, since: map<FrameID, nat>, s: Store, k: PageKey)
    requires Matches(p, since, s)
    ensures PoolOk(Flushed(p, k), NO_FRAME) ==> Matches(Flushed(p, k), since, Next(s, Flush(k)))
    ensures ReplyTo(s, Flush(k)) == Flag(k in p.table)
  {
    PageAt(p, since, s, k);
    if k in p.table {
      var fr := p.frames[p.table[k]];
      SameFilesUpdate(p.disk, s.files, k, fr.data);
      EditMatches(p, since, s, k, fr.(isDirty := false), p.disk[k := fr.data], s.files[k := fr.data]);
    }
  }

  method ExecuteFlushAll(pool: BufferPool, ghost s: Store) returns (r: Reply)
    requires Follows(pool, s)
    modifies pool, pool.frames
    ensures Follows(pool, Next(s, FlushAll)) && r == ReplyTo(s, FlushAll)
    ensures forall k :: DiskAt(pool.disk, k) == Contents(s, k)
  {
    ghost var p, since := pool.Snapshot(), pool.replacer.since;
    pool.FlushAllPages();
    ghost var p' := pool.Snapshot();
    forall k ensures Logical(p', k) == Logical(p, k) && DiskAt(p'.disk, k) == Logical(p, k) && Pins(p', k) == Pins(p, k) {
      assert pool.Contents(k) == Logical(p', k) && pool.PinCount(k) == Pins(p', k);
    }
    FlushAllMatches(p, since, s, p');
    forall k ensures DiskAt(pool.disk, k) == Contents(s, k) {
      PageAt(p, since, s, k);
    }
    return Done;
  }

  lemma FlushAllMatches(p: Pool, since: map<FrameID, nat>, s: Store, p': Pool)
    requires Matches(p, since, s) && PoolOk(p', NO_FRAME) && p'.table == p.table && p'.cands == p.cands && |p'.frames| == |p.frames|
    requires forall k :: Logical(p', k) == Logical(p, k) && DiskAt(p'.disk, k) == Logical(p, k) && Pins(p', k) == Pins(p, k)
    requires forall k :: k in p'.table ==> 0 <= p'.table[k] < |p'.frames| && !p'.frames[p'.table[k]].isDirty
    ensures Matches(p', since, Next(s, FlushAll))
  {
    FlushAllWellFormed(s);
    SameOrder(p, p', since, s.idle);
    FlushAllView(p, since, s, p');
  }

  lemma FlushAllView(p: Pool, since: map<FrameID, nat>, s: Store, p': Pool)
    requires Matches(p, since, s) && p'.table == p.table && |p'.frames| == |p.frames|
    requires forall k :: Logical(p', k) == Logical(p, k) && DiskAt(p'.disk, k) == Logical(p, k) && Pins(p', k) == Pins(p, k)
    requires forall k :: k in p'.table ==> 0 <= p'.table[k] < |p'.frames| && !p'.frames[p'.table[k]].isDirty
    ensures Resident(p') == Next(s, FlushAll).pages && SameFiles(p'.disk, Next(s, FlushAll).files)
  {
    var pages, pages', files := Resident(p'), Next(s, FlushAll).pages, Next(s, FlushAll).files;
    forall k
      ensures (k in pages <==> k in pages') && (k in pages' ==> pages[k] == pages'[k])
    {
      FlushAllPageAt(p, since, s, p', k);
    }
    forall k ensures DiskAt(p'.disk, k) == DiskAt(files, k) {
      FlushAllPageAt(p, since, s, p', k);
    }
  }

  lemma FlushAllPageAt(p: Pool, since: map<FrameID, nat>, s: Store, p': Pool, k: PageKey)
    requires Matches(p, since, s) && p'.table == p.table && |p'.frames| == |p.frames|
    requires Logical(p', k) == Logical(p, k) && DiskAt(p'.disk, k) == Logical(p, k) && Pins(p', k) == Pins(p, k)
    requires k in p'.table ==> 0 <= p'.table[k] < |p'.frames| && !p'.frames[p'.table[k]].isDirty
    ensures var s' := Next(s, FlushAll);
            && (k in Resident(p') <==> k in s'.pages) && (k in s'.pages ==> Resident(p')[k] == s'.pages[k])
            && DiskAt(p'.disk, k) == DiskAt(s'.files, k)
  {
    PageAt(p, since, s, k);
  }

  /** Carries out a run of any client. */
  method Run(pool: BufferPool, cmds: seq<Command>, ghost s: Store) returns (replies: seq<Reply>)
    requires Follows(pool, s) && AllowedRun(s, cmds)
    modifies pool, pool.frames, pool.replacer
    ensures Follows(pool, After(s, cmds)) && replies == Replies(s, cmds)
  {
    replies := [];
    ghost var t := s;
    for i := 0 to |cmds|
      invariant Follows(pool, t) && t == After(s, cmds[..i]) && replies == Replies(s, cmds[..i])
    {
      NextAfter(s, cmds, i);
      NextReplies(s, cmds, i);
      var r := Execute(pool, cmds[i], t);
      replies := replies + [r];
      t := Next(t, cmds[i]);
    }
    assert cmds[..|cmds|] == cmds;
  }

  /** A run on a new pool of any size over any files, for any client. */
  method RunOnNewPool(size: nat, disk: Disk, cmds: seq<Command>) returns (replies: seq<Reply>, pool: BufferPool)
    requires AllowedRun(Initial(size, disk), cmds)
    ensures replies == Replies(Initial(size, disk), cmds) && Follows(pool, After(Initial(size, disk), cmds))
    ensures RepliesAre(Initial(size, disk), cmds, replies)
  {
    pool := new BufferPool(size, disk);
    assert Resident(pool.Snapshot()) == map[];
    replies := Run(pool, cmds, Initial(size, disk));
    RepliesRight(Initial(size, disk), cmds);
  }

  /** The clients' view: every read returns what a store without a cache holds. */
  ghost predicate ReadsPlain(s: Store, cmds: seq<Command>, replies: seq<Reply>) {
    |replies| == |cmds| && forall i, k :: 0 <= i < |cmds| && cmds[i] == Read(k) ==> replies[i] == Bytes(DiskAt(Plain(s, cmds[..i]), k))
  }

  lemma NothingLostReadsPlain(s: Store, cmds: seq<Command>)
    requires WellFormed(s) && AllowedRun(s, cmds) && LosesNothing(s, cmds)
    ensures ReadsPlain(s, cmds, Replies(s, cmds))
  {
    forall i, k | 0 <= i < |cmds| && cmds[i] == Read(k) ensures Replies(s, cmds)[i] == Bytes(DiskAt(Plain(s, cmds[..i]), k)) {
      NothingLost(s, cmds, i);
      ReplyAt(s, cmds, i);
    }
  }

  /** With a frame for every page that is touched, the pool is a plain page store for every client, whatever it reports. */
  method RunWithFewPages(size: nat, disk: Disk, cmds: seq<Command>) returns (replies: seq<Reply>)
    requires AllowedRun(Initial(size, disk), cmds) && |Entering(cmds)| <= size
    ensures ReadsPlain(Initial(size, disk), cmds, replies)
  {
    FewPagesLoseNothing(Initial(size, disk), cmds);
    NothingLostReadsPlain(Initial(size, disk), cmds);
    var pool;
    replies, pool := RunOnNewPool(size, disk, cmds);
  }

  /** A client that changes or appends one page without reporting it, and then visits as many others as there are frames,
      reads back what the file held. */
  method LoseQuietChange(size: nat, disk: Disk, a: PageKey, data: Data, appended: bool, keys: seq<PageKey>) returns (replies: seq<Reply>)
    requires size >= 1 && |keys| == size && Distinct([a] + keys)
    ensures replies == Replies(Initial(size, disk), QuietRun(a, data, appended, keys))
    ensures replies != [] && replies[|replies| - 1] == Bytes(if appended then ZeroPage() else DiskAt(disk, a))
  {
    QuietRunReads(size, disk, a, data, appended, keys);
    var pool;
    replies, pool := RunOnNewPool(size, disk, QuietRun(a, data, appended, keys));
  }
}
