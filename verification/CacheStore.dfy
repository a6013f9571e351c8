/** The buffer pool as its clients can know it: resident pages, the order in which they became idle, and the files
    (src/buffer/buffer_pool_manager.cpp). What a client reads is compared with a page store that has no cache. */
module CacheStore {
  import opened Basics
  import opened BufferPool

  datatype Command =
    | Fetch(key: PageKey)
    | Append(key: PageKey)
    | Read(key: PageKey)
    | Write(key: PageKey, data: Data)
    | Unpin(key: PageKey, isDirty: bool)
    | Flush(key: PageKey)
    | FlushAll

  /** Refused stands for the null pointer. */
  datatype Reply = Refused | Pinned | Bytes(data: Data) | Flag(ok: bool) | Done

  datatype Page = Page(data: Data, pins: int, dirty: bool)

  /** Resident pages without pins are idle; the one that has been idle for the longest time comes first. */
  datatype Store = Store(size: nat, pages: map<PageKey, Page>, idle: seq<PageKey>, files: Disk)

  function Initial(size: nat, disk: Disk): Store {
    Store(size, map[], [], disk)
  }

  /** What a page reads. */
  function Contents(s: Store, k: PageKey): Data {
    if k in s.pages then s.pages[k].data else DiskAt(s.files, k)
  }

  function PinsOf(s: Store, k: PageKey): int {
    if k in s.pages then s.pages[k].pins else 0
  }

  predicate Distinct(idle: seq<PageKey>) {
    forall i, j :: 0 <= i < j < |idle| ==> idle[i] != idle[j]
  }

  ghost predicate WellFormed(s: Store) {
    && |s.pages| <= s.size && Distinct(s.idle)
    && (forall k {:trigger k in s.pages} :: k in s.pages ==> s.pages[k].pins >= 0)
    && (forall k {:trigger k in s.idle} :: k in s.idle <==> k in s.pages && s.pages[k].pins == 0)
  }

  function Without(idle: seq<PageKey>, k: PageKey): seq<PageKey> {
    if idle == [] then [] else if idle[0] == k then idle[1..] else [idle[0]] + Without(idle[1..], k)
  }

  /** Bringing in another page needs a frame that is free, or a page to evict. */
  predicate IsRefused(s: Store, k: PageKey) {
    k !in s.pages && |s.pages| >= s.size && s.idle == []
  }

  /** The page that has been idle for the longest time leaves; only what was reported as dirty is written back. */
  function WithoutOldest(s: Store): Store
    requires s.idle != []
  {
    var k := s.idle[0];
    Store(s.size, s.pages - {k}, s.idle[1..],
          if k in s.pages && s.pages[k].dirty then s.files[k := s.pages[k].data] else s.files)
  }

  /** Room for one more page. */
  function WithRoom(s: Store): Store {
    if |s.pages| >= s.size && s.idle != [] then WithoutOldest(s) else s
  }

  /** What is asked of a client: it touches only pages that are resident, as the pages it has pinned are, and appends only
      pages that are not. The free-space map code writes a page that it has just unpinned. */
  predicate Allowed(s: Store, c: Command) {
    match c
    case Append(k) => k !in s.pages
    case Read(k) => k in s.pages
    case Write(k, _) => k in s.pages
    case _ => true
  }

  function PinAgain(s: Store, k: PageKey): Store
    requires k in s.pages
  {
    s.(pages := s.pages[k := s.pages[k].(pins := s.pages[k].pins + 1)], idle := Without(s.idle, k))
  }

  function Enter(s: Store, k: PageKey, data: Data, files: Disk): Store {
    s.(pages := s.pages[k := Page(data, 1, false)], files := files)
  }

  /** Dropping a pin; a report of a change is remembered even if there is no pin to drop. */
  function DropPin(s: Store, k: PageKey, isDirty: bool): Store
    requires k in s.pages
  {
    var page := s.pages[k].(dirty := s.pages[k].dirty || isDirty);
    if page.pins <= 0 then s.(pages := s.pages[k := page])
    else s.(pages := s.pages[k := page.(pins := page.pins - 1)], idle := if page.pins == 1 then s.idle + [k] else s.idle)
  }

  /** The store after one command. */
  function Next(s: Store, c: Command): Store {
    match c
    case Fetch(k) =>
      if k in s.pages then PinAgain(s, k)
      else if IsRefused(s, k) then s
      else Enter(WithRoom(s), k, DiskAt(WithRoom(s).files, k), WithRoom(s).files)
    case Append(k) =>
      if IsRefused(s, k) then s else Enter(WithRoom(s), k, ZeroPage(), WithRoom(s).files[k := ZeroPage()])
    case Read(_) => s
    case Write(k, data) => if k in s.pages then s.(pages := s.pages[k := s.pages[k].(data := data)]) else s
    case Unpin(k, isDirty) => if k in s.pages then DropPin(s, k, isDirty) else s
    case Flush(k) =>
      if k !in s.pages then s
      else s.(pages := s.pages[k := s.pages[k].(dirty := false)], files := s.files[k := s.pages[k].data])
    case FlushAll =>
      s.(pages := map k | k in s.pages :: s.pages[k].(dirty := false), files := s.files + map k | k in s.pages :: s.pages[k].data)
  }

  function ReplyTo(s: Store, c: Command): Reply {
    match c
    case Fetch(k) => if IsRefused(s, k) then Refused else Pinned
    case Append(k) => if IsRefused(s, k) then Refused else Pinned
    case Read(k) => Bytes(Contents(s, k))
    case Unpin(k, _) => Flag(k in s.pages ==> s.pages[k].pins > 0)
    case Flush(k) => Flag(k in s.pages)
    case _ => Done
  }

  function After(s: Store, cmds: seq<Command>): Store {
    if cmds == [] then s else Next(After(s, cmds[..|cmds| - 1]), cmds[|cmds| - 1])
  }

  /** The replies of a run, in order. */
  function Replies(s: Store, cmds: seq<Command>): (r: seq<Reply>)
    ensures |r| == |cmds|
  {
    if cmds == [] then [] else Replies(s, cmds[..|cmds| - 1]) + [ReplyTo(After(s, cmds[..|cmds| - 1]), cmds[|cmds| - 1])]
  }

  predicate AllowedRun(s: Store, cmds: seq<Command>) {
    forall i :: 0 <= i < |cmds| ==> Allowed(After(s, cmds[..i]), cmds[i])
  }

  lemma NextAfter(s: Store, cmds: seq<Command>, i: nat)
    requires i < |cmds|
    ensures After(s, cmds[..i + 1]) == Next(After(s, cmds[..i]), cmds[i])
  {
    assert cmds[..i + 1][..i] == cmds[..i];
  }

  lemma NextReplies(s: Store, cmds: seq<Command>, i: nat)
    requires i < |cmds|
    ensures Replies(s, cmds[..i + 1]) == Replies(s, cmds[..i]) + [ReplyTo(After(s, cmds[..i]), cmds[i])]
  {
    assert cmds[..i + 1][..i] == cmds[..i];
  }

  lemma {:induction false} ReplyAt(s: Store, cmds: seq<Command>, i: nat)
    requires i < |cmds|
    ensures Replies(s, cmds)[i] == ReplyTo(After(s, cmds[..i]), cmds[i])
  {
    var n := |cmds| - 1;
    assert Replies(s, cmds) == Replies(s, cmds[..n]) + [ReplyTo(After(s, cmds[..n]), cmds[n])];
    if i < n {
      ReplyAt(s, cmds[..n], i);
      assert cmds[..n][..i] == cmds[..i] && cmds[..n][i] == cmds[i];
    }
  }

  // ---------- Consistency ----------

  lemma {:induction false} WithoutElements(idle: seq<PageKey>, k: PageKey)
    requires Distinct(idle)
    ensures Distinct(Without(idle, k)) && forall x :: x in Without(idle, k) <==> x in idle && x != k
  {
    if idle != [] {
      var rest := idle[1..];
      WithoutElements(rest, k);
      assert idle == [idle[0]] + rest;
      assert forall x :: x in idle <==> x == idle[0] || x in rest;
      assert idle[0] !in rest;
    }
  }

  lemma WithRoomWellFormed(s: Store)
    requires WellFormed(s)
    ensures WellFormed(WithRoom(s)) && WithRoom(s).pages.Keys <= s.pages.Keys
    ensures |s.pages| < s.size || s.idle != [] ==> |WithRoom(s).pages| < s.size
  {
    if |s.pages| >= s.size && s.idle != [] {
      var k, r := s.idle[0], WithRoom(s);
      assert k in s.idle;
      assert s.pages.Keys == r.pages.Keys + {k};
      assert s.idle == [k] + r.idle;
      forall x ensures x in r.idle <==> x in s.idle && x != k {
      }
    }
  }

  /** Changing one resident page. */
  lemma TouchWellFormed(s: Store, k: PageKey, page: Page, idle: seq<PageKey>, files: Disk)
    requires WellFormed(s) && k in s.pages && page.pins >= 0 && Distinct(idle)
    requires forall x :: x in idle <==> if x == k then page.pins == 0 else x in s.idle
    ensures WellFormed(s.(pages := s.pages[k := page], idle := idle, files := files))
  {
    assert s.pages[k := page].Keys == s.pages.Keys;
  }

  /** Adding a pinned page. */
  lemma EnterWellFormed(s: Store, k: PageKey, data: Data, files: Disk)
    requires WellFormed(s) && k !in s.pages && |s.pages| < s.size
    ensures WellFormed(Enter(s, k, data, files))
  {
    assert s.pages[k := Page(data, 1, false)].Keys == s.pages.Keys + {k};
  }

  lemma AppendIdle(idle: seq<PageKey>, k: PageKey)
    requires Distinct(idle) && k !in idle
    ensures Distinct(idle + [k]) && forall x :: x in idle + [k] <==> x in idle || x == k
  {
  }

  lemma PinAgainWellFormed(s: Store, k: PageKey)
    requires WellFormed(s) && k in s.pages
    ensures WellFormed(PinAgain(s, k))
  {
    WithoutElements(s.idle, k);
    TouchWellFormed(s, k, s.pages[k].(pins := s.pages[k].pins + 1), Without(s.idle, k), s.files);
  }

  lemma DropPinWellFormed(s: Store, k: PageKey, isDirty: bool)
    requires WellFormed(s) && k in s.pages
    ensures WellFormed(DropPin(s, k, isDirty))
  {
    var s' := DropPin(s, k, isDirty);
    if s.pages[k].pins == 1 {
      AppendIdle(s.idle, k);
    }
    TouchWellFormed(s, k, s'.pages[k], s'.idle, s.files);
  }

  lemma FlushAllWellFormed(s: Store)
    requires WellFormed(s)
    ensures WellFormed(Next(s, FlushAll))
  {
    assert Next(s, FlushAll).pages.Keys == s.pages.Keys;
  }

  lemma NextWellFormed(s: Store, c: Command)
    requires WellFormed(s) && Allowed(s, c)
    ensures WellFormed(Next(s, c)) && Next(s, c).size == s.size
  {
    match c
    case Fetch(k) =>
      if k in s.pages {
        PinAgainWellFormed(s, k);
      } else if !IsRefused(s, k) {
        WithRoomWellFormed(s);
        EnterWellFormed(WithRoom(s), k, DiskAt(WithRoom(s).files, k), WithRoom(s).files);
      }
    case Append(k) =>
      if !IsRefused(s, k) {
        WithRoomWellFormed(s);
        EnterWellFormed(WithRoom(s), k, ZeroPage(), WithRoom(s).files[k := ZeroPage()]);
      }
    case Unpin(k, isDirty) => if k in s.pages { DropPinWellFormed(s, k, isDirty); }
    case Write(k, data) => TouchWellFormed(s, k, s.pages[k].(data := data), s.idle, s.files);
    case Flush(k) =>
      if k in s.pages {
        TouchWellFormed(s, k, s.pages[k].(dirty := false), s.idle, s.files[k := s.pages[k].data]);
      }
    case FlushAll => FlushAllWellFormed(s);
    case Read(_) =>
  }

  lemma {:induction false} AfterWellFormed(s: Store, cmds: seq<Command>)
    requires WellFormed(s) && AllowedRun(s, cmds)
    ensures WellFormed(After(s, cmds)) && After(s, cmds).size == s.size
  {
    if cmds != [] {
      var n := |cmds| - 1;
      PrefixAllowed(s, cmds, n);
      AfterWellFormed(s, cmds[..n]);
      NextWellFormed(After(s, cmds[..n]), cmds[n]);
    }
  }

  lemma PrefixAllowed(s: Store, cmds: seq<Command>, n: nat)
    requires AllowedRun(s, cmds) && n <= |cmds|
    ensures AllowedRun(s, cmds[..n])
  {
    forall i | 0 <= i < n ensures Allowed(After(s, cmds[..n][..i]), cmds[..n][i]) {
      assert cmds[..n][..i] == cmds[..i];
    }
  }

  // ---------- What is lost ----------

  /** The page k reads from its file although it held something else, because this command evicts it and nobody has
      reported its change. */
  predicate Loses(s: Store, c: Command, k: PageKey) {
    && (c.Fetch? || c.Append?) && c.key !in s.pages && |s.pages| >= s.size
    && s.idle != [] && s.idle[0] == k
    && k in s.pages && !s.pages[k].dirty && s.pages[k].data != DiskAt(s.files, k)
  }

  predicate Changes(s: Store, c: Command, k: PageKey) {
    (c.Write? && c.key == k) || (c.Append? && c.key == k && !IsRefused(s, k))
  }

  /** Apart from the page that the command is to change, a page reads the same before and after a command exactly if the
      command does not lose its change. */
  lemma StepExactly(s: Store, c: Command, k: PageKey)
    requires WellFormed(s) && Allowed(s, c) && !Changes(s, c, k)
    ensures Contents(Next(s, c), k) == Contents(s, k) <==> !Loses(s, c, k)
  {
    if c.Fetch? || c.Append? {
      WithRoomExactly(s, k);
    }
  }

  lemma WithRoomExactly(s: Store, k: PageKey)
    requires WellFormed(s)
    ensures Contents(WithRoom(s), k) ==
              if |s.pages| >= s.size && s.idle != [] && s.idle[0] == k && k in s.pages && !s.pages[k].dirty
              then DiskAt(s.files, k) else Contents(s, k)
    ensures k !in s.pages ==> k !in WithRoom(s).pages && DiskAt(WithRoom(s).files, k) == DiskAt(s.files, k)
    ensures s.idle != [] ==> s.idle[0] in s.pages
  {
    if s.idle != [] {
      assert s.idle[0] in s.idle;
    }
  }

  /** The pages of a store that has no cache: they change when a client writes or appends them, and never otherwise. */
  function PlainNext(m: Disk, s: Store, c: Command): Disk {
    match c
    case Write(k, data) => m[k := data]
    case Append(k) => if IsRefused(s, k) then m else m[k := ZeroPage()]
    case _ => m
  }

  function Plain(s: Store, cmds: seq<Command>): Disk {
    if cmds == [] then s.files + map k | k in s.pages :: s.pages[k].data
    else PlainNext(Plain(s, cmds[..|cmds| - 1]), After(s, cmds[..|cmds| - 1]), cmds[|cmds| - 1])
  }

  ghost predicate SameAsPlain(s: Store, cmds: seq<Command>) {
    forall k :: Contents(After(s, cmds), k) == DiskAt(Plain(s, cmds), k)
  }

  ghost predicate LosesNothing(s: Store, cmds: seq<Command>) {
    forall i, k :: 0 <= i < |cmds| ==> !Loses(After(s, cmds[..i]), cmds[i], k)
  }

  lemma PlainStart(s: Store)
    ensures SameAsPlain(s, [])
  {
  }

  /** One step of the comparison. */
  lemma PlainStep(s: Store, cmds: seq<Command>, i: nat)
    requires WellFormed(s) && AllowedRun(s, cmds) && i < |cmds| && SameAsPlain(s, cmds[..i])
    ensures SameAsPlain(s, cmds[..i + 1]) <==> forall k :: !Loses(After(s, cmds[..i]), cmds[i], k)
  {
    var t, c := After(s, cmds[..i]), cmds[i];
    PrefixAllowed(s, cmds, i);
    AfterWellFormed(s, cmds[..i]);
    NextAfter(s, cmds, i);
    assert cmds[..i + 1][..i] == cmds[..i];
    var m, m' := Plain(s, cmds[..i]), Plain(s, cmds[..i + 1]);
    forall k
      ensures Contents(t, k) == DiskAt(m, k)
      ensures Contents(Next(t, c), k) == DiskAt(m', k) <==> !Loses(t, c, k)
    {
      if Changes(t, c, k) {
        assert Contents(Next(t, c), k) == DiskAt(m', k);
      } else {
        StepExactly(t, c, k);
        assert DiskAt(m', k) == DiskAt(m, k);
      }
    }
    if SameAsPlain(s, cmds[..i + 1]) {
      forall k ensures !Loses(t, c, k) {
        assert Contents(After(s, cmds[..i + 1]), k) == DiskAt(m', k);
      }
    }
  }

  /** At every moment of a run all pages read as in a store without a cache, exactly if no command of the run evicts a page
      whose change nobody has reported. */
  lemma RunExactly(s: Store, cmds: seq<Command>)
    requires WellFormed(s) && AllowedRun(s, cmds)
    ensures (forall i :: 0 <= i <= |cmds| ==> SameAsPlain(s, cmds[..i])) <==> LosesNothing(s, cmds)
  {
    if forall i :: 0 <= i <= |cmds| ==> SameAsPlain(s, cmds[..i]) {
      forall i, k | 0 <= i < |cmds| ensures !Loses(After(s, cmds[..i]), cmds[i], k) {
        assert SameAsPlain(s, cmds[..i]) && SameAsPlain(s, cmds[..i + 1]);
        PlainStep(s, cmds, i);
      }
    }
    if LosesNothing(s, cmds) {
      forall i | 0 <= i <= |cmds| ensures SameAsPlain(s, cmds[..i]) {
        NothingLost(s, cmds, i);
      }
    }
  }

  lemma {:induction false} NothingLost(s: Store, cmds: seq<Command>, i: nat)
    requires WellFormed(s) && AllowedRun(s, cmds) && LosesNothing(s, cmds) && i <= |cmds|
    ensures SameAsPlain(s, cmds[..i])
  {
    if i == 0 {
      PlainStart(s);
    } else {
      NothingLost(s, cmds, i - 1);
      PlainStep(s, cmds, i - 1);
    }
  }

  // ---------- When nothing is lost ----------

  /** The pages that a command, or a run, may bring in. */
  function Enters(c: Command): set<PageKey> {
    if c.Fetch? || c.Append? then {c.key} else {}
  }

  function Entering(cmds: seq<Command>): set<PageKey> {
    if cmds == [] then {} else Entering(cmds[..|cmds| - 1]) + Enters(cmds[|cmds| - 1])
  }

  lemma NextResident(s: Store, c: Command)
    requires WellFormed(s)
    ensures Next(s, c).pages.Keys <= s.pages.Keys + Enters(c)
  {
    WithRoomWellFormed(s);
  }

  lemma {:induction false} ResidentAfter(s: Store, cmds: seq<Command>)
    requires WellFormed(s) && AllowedRun(s, cmds)
    ensures After(s, cmds).pages.Keys <= s.pages.Keys + Entering(cmds)
  {
    if cmds != [] {
      var n := |cmds| - 1;
      PrefixAllowed(s, cmds, n);
      ResidentAfter(s, cmds[..n]);
      AfterWellFormed(s, cmds[..n]);
      NextResident(After(s, cmds[..n]), cmds[n]);
    }
  }

  lemma {:induction false} EnteringPrefix(cmds: seq<Command>, i: nat)
    requires i < |cmds|
    ensures Entering(cmds[..i]) + Enters(cmds[i]) <= Entering(cmds)
  {
    var n := |cmds| - 1;
    if i < n {
      EnteringPrefix(cmds[..n], i);
      assert cmds[..n][..i] == cmds[..i];
    }
  }

  lemma SmallerSet<T>(a: set<T>, b: set<T>)
    requires a <= b
    ensures |a| <= |b|
  {
    assert b == a + (b - a);
  }

  /** A run that touches no more pages than there are frames loses nothing, whatever its client reports. */
  lemma FewPagesLoseNothing(s: Store, cmds: seq<Command>)
    requires WellFormed(s) && AllowedRun(s, cmds) && |s.pages.Keys + Entering(cmds)| <= s.size
    ensures LosesNothing(s, cmds)
  {
    forall i, k | 0 <= i < |cmds| ensures !Loses(After(s, cmds[..i]), cmds[i], k) {
      var t, c := After(s, cmds[..i]), cmds[i];
      PrefixAllowed(s, cmds, i);
      ResidentAfter(s, cmds[..i]);
      AfterWellFormed(s, cmds[..i]);
      EnteringPrefix(cmds, i);
      if (c.Fetch? || c.Append?) && c.key !in t.pages {
        SmallerSet(t.pages.Keys + {c.key}, s.pages.Keys + Entering(cmds));
        assert |t.pages.Keys + {c.key}| == |t.pages| + 1;
      }
    }
  }

  /** A resident page that differs from its file and is not marked as dirty. */
  predicate AtRisk(s: Store, k: PageKey) {
    k in s.pages && !s.pages[k].dirty && s.pages[k].data != DiskAt(s.files, k)
  }

  /** The client writes only pages it has pinned, and reports a change at the latest with the last pin. */
  predicate Reports(s: Store, c: Command) {
    && (c.Write? ==> PinsOf(s, c.key) > 0)
    && (c.Unpin? && PinsOf(s, c.key) == 1 && AtRisk(s, c.key) ==> c.isDirty)
  }

  predicate ReportsAll(s: Store, cmds: seq<Command>) {
    forall i :: 0 <= i < |cmds| ==> Reports(After(s, cmds[..i]), cmds[i])
  }

  ghost predicate IdleSafe(s: Store) {
    forall k {:trigger k in s.idle} :: k in s.idle ==> !AtRisk(s, k)
  }

  lemma NextIdleSafe(s: Store, c: Command)
    requires WellFormed(s) && Allowed(s, c) && Reports(s, c) && IdleSafe(s)
    ensures IdleSafe(Next(s, c))
  {
    var s' := Next(s, c);
    forall k | k in s'.idle ensures !AtRisk(s', k) {
      if c.Fetch? && c.key in s.pages {
        WithoutElements(s.idle, c.key);
      }
      assert k in s.idle || (c.Unpin? && c.key == k);
    }
  }

  lemma PrefixReports(s: Store, cmds: seq<Command>, n: nat)
    requires ReportsAll(s, cmds) && n <= |cmds|
    ensures ReportsAll(s, cmds[..n])
  {
    forall i | 0 <= i < n ensures Reports(After(s, cmds[..n][..i]), cmds[..n][i]) {
      assert cmds[..n][..i] == cmds[..i];
    }
  }

  lemma {:induction false} ReportedIdleSafe(s: Store, cmds: seq<Command>)
    requires WellFormed(s) && AllowedRun(s, cmds) && ReportsAll(s, cmds) && IdleSafe(s)
    ensures IdleSafe(After(s, cmds))
  {
    if cmds != [] {
      var n := |cmds| - 1;
      PrefixAllowed(s, cmds, n);
      PrefixReports(s, cmds, n);
      ReportedIdleSafe(s, cmds[..n]);
      AfterWellFormed(s, cmds[..n]);
      NextIdleSafe(After(s, cmds[..n]), cmds[n]);
    }
  }

  /** A client that reports its changes loses nothing. */
  lemma ReportedLosesNothing(s: Store, cmds: seq<Command>)
    requires WellFormed(s) && AllowedRun(s, cmds) && ReportsAll(s, cmds) && IdleSafe(s)
    ensures LosesNothing(s, cmds)
  {
    forall i, k | 0 <= i < |cmds| ensures !Loses(After(s, cmds[..i]), cmds[i], k) {
      PrefixAllowed(s, cmds, i);
      PrefixReports(s, cmds, i);
      ReportedIdleSafe(s, cmds[..i]);
      var t := After(s, cmds[..i]);
      assert t.idle != [] ==> t.idle[0] in t.idle;
    }
  }

  /** The pages that were written since their last report or flush; every client can keep track of these. */
  function Unreported(cmds: seq<Command>): set<PageKey> {
    if cmds == [] then {}
    else
      var before := Unreported(cmds[..|cmds| - 1]);
      match cmds[|cmds| - 1]
      case Write(k, _) => before + {k}
      case Unpin(k, isDirty) => if isDirty then before - {k} else before
      case Flush(k) => before - {k}
      case FlushAll => {}
      case _ => before
  }

  /** The command reports or writes back what was changed on the page. */
  predicate Settles(c: Command, k: PageKey) {
    c.FlushAll? || ((c.Flush? || (c.Unpin? && c.isDirty)) && c.key == k)
  }

  lemma EnterAtRisk(s: Store, k: PageKey, data: Data, files: Disk, x: PageKey)
    requires WellFormed(s) && data == DiskAt(files, k) && (x != k ==> DiskAt(files, x) == DiskAt(WithRoom(s).files, x))
    requires AtRisk(Enter(WithRoom(s), k, data, files), x)
    ensures AtRisk(s, x)
  {
    WithRoomExactly(s, x);
  }

  lemma NextAtRisk(s: Store, c: Command, k: PageKey)
    requires WellFormed(s) && AtRisk(Next(s, c), k)
    ensures (c.Write? && c.key == k) || (AtRisk(s, k) && !Settles(c, k))
  {
    match c
    case Fetch(x) =>
      if x !in s.pages && !IsRefused(s, x) {
        EnterAtRisk(s, x, DiskAt(WithRoom(s).files, x), WithRoom(s).files, k);
      }
    case Append(x) =>
      if !IsRefused(s, x) {
        EnterAtRisk(s, x, ZeroPage(), WithRoom(s).files[x := ZeroPage()], k);
      }
    case _ =>
  }

  /** Only pages that were written without a report are ever at risk. */
  lemma {:induction false} AtRiskUnreported(s: Store, cmds: seq<Command>, k: PageKey)
    requires WellFormed(s) && AllowedRun(s, cmds) && (forall x :: !AtRisk(s, x))
    ensures AtRisk(After(s, cmds), k) ==> k in Unreported(cmds)
  {
    if cmds != [] && AtRisk(After(s, cmds), k) {
      var n := |cmds| - 1;
      PrefixAllowed(s, cmds, n);
      AfterWellFormed(s, cmds[..n]);
      NextAtRisk(After(s, cmds[..n]), cmds[n], k);
      AtRiskUnreported(s, cmds[..n], k);
    }
  }

  /** A client that has carried out these commands writes only pages it has pinned, and drops the last pin of a page it
      changed only with a report. */
  predicate ReportsOwn(s: Store, cmds: seq<Command>, c: Command) {
    && (c.Write? ==> PinsOf(s, c.key) > 0)
    && (c.Unpin? && PinsOf(s, c.key) == 1 && c.key in Unreported(cmds) ==> c.isDirty)
  }

  /** A client that keeps track of its changes, and reports each of them at the latest with the last pin, loses nothing. */
  lemma CarefulLosesNothing(s: Store, cmds: seq<Command>)
    requires WellFormed(s) && AllowedRun(s, cmds) && (forall x :: !AtRisk(s, x))
    requires forall i :: 0 <= i < |cmds| ==> ReportsOwn(After(s, cmds[..i]), cmds[..i], cmds[i])
    ensures LosesNothing(s, cmds)
  {
    forall i | 0 <= i < |cmds| ensures Reports(After(s, cmds[..i]), cmds[i]) {
      assert ReportsOwn(After(s, cmds[..i]), cmds[..i], cmds[i]);
      if cmds[i].Unpin? {
        PrefixAllowed(s, cmds, i);
        AtRiskUnreported(s, cmds[..i], cmds[i].key);
      }
    }
    ReportedLosesNothing(s, cmds);
  }

  // ---------- When a page is refused ----------

  function PinnedPages(s: Store): set<PageKey> {
    set k | k in s.pages && s.pages[k].pins > 0
  }

  /** A page is refused exactly if it has no pins and as many pages are pinned as there are frames. */
  lemma RefusedExactly(s: Store, k: PageKey)
    requires WellFormed(s)
    ensures IsRefused(s, k) <==> PinsOf(s, k) == 0 && |PinnedPages(s)| == s.size
  {
    SmallerSet(PinnedPages(s), s.pages.Keys);
    if s.idle == [] {
      forall x ensures x in PinnedPages(s) <==> x in s.pages.Keys {
        assert x in s.pages ==> x !in s.idle;
      }
      assert PinnedPages(s) == s.pages.Keys;
    } else {
      assert s.idle[0] in s.idle;
      SmallerSet(PinnedPages(s) + {s.idle[0]}, s.pages.Keys);
      assert |PinnedPages(s) + {s.idle[0]}| == |PinnedPages(s)| + 1;
    }
  }

  /** What a command replies: a page is refused exactly if it has no pins and every frame is taken by a pinned page, a read
      gives the page's contents, and dropping a pin fails exactly for a resident page without pins. */
  ghost predicate ReplyIs(s: Store, c: Command, r: Reply) {
    match c
    case Fetch(k) => r == if PinsOf(s, k) == 0 && |PinnedPages(s)| == s.size then Refused else Pinned
    case Append(k) => r == if PinsOf(s, k) == 0 && |PinnedPages(s)| == s.size then Refused else Pinned
    case Read(k) => r == Bytes(Contents(s, k))
    case Unpin(k, _) => r == Flag(k !in s.pages || PinsOf(s, k) != 0)
    case Flush(k) => r == Flag(k in s.pages)
    case _ => r == Done
  }

  ghost predicate RepliesAre(s: Store, cmds: seq<Command>, replies: seq<Reply>) {
    |replies| == |cmds| && forall i :: 0 <= i < |cmds| ==> ReplyIs(After(s, cmds[..i]), cmds[i], replies[i])
  }

  lemma RepliesRight(s: Store, cmds: seq<Command>)
    requires WellFormed(s) && AllowedRun(s, cmds)
    ensures RepliesAre(s, cmds, Replies(s, cmds))
  {
    forall i | 0 <= i < |cmds| ensures ReplyIs(After(s, cmds[..i]), cmds[i], Replies(s, cmds)[i]) {
      PrefixAllowed(s, cmds, i);
      AfterWellFormed(s, cmds[..i]);
      ReplyAt(s, cmds, i);
      if cmds[i].Fetch? || cmds[i].Append? {
        RefusedExactly(After(s, cmds[..i]), cmds[i].key);
      }
    }
  }

  // ---------- Reading ----------

  predicate Touches(c: Command, k: PageKey) {
    (c.Write? || c.Append?) && c.key == k
  }

  lemma PlainLeaves(m: Disk, s: Store, c: Command, k: PageKey)
    requires !Touches(c, k)
    ensures DiskAt(PlainNext(m, s, c), k) == DiskAt(m, k)
  {
  }

  /** Without a cache, a page reads as what was last written to it. */
  lemma {:induction false} LastWriteIsRead(s: Store, cmds: seq<Command>, k: PageKey, i: nat, data: Data)
    requires i < |cmds| && cmds[i] == Write(k, data) && forall j :: i < j < |cmds| ==> !Touches(cmds[j], k)
    ensures DiskAt(Plain(s, cmds), k) == data
  {
    var n := |cmds| - 1;
    if i < n {
      LastWriteIsRead(s, cmds[..n], k, i, data);
      PlainLeaves(Plain(s, cmds[..n]), After(s, cmds[..n]), cmds[n], k);
    }
  }

  /** Without a cache, a page that no command changes reads as it did at the start. */
  lemma {:induction false} UnchangedIsRead(s: Store, cmds: seq<Command>, k: PageKey)
    requires forall j :: 0 <= j < |cmds| ==> !Touches(cmds[j], k)
    ensures DiskAt(Plain(s, cmds), k) == Contents(s, k)
  {
    if cmds != [] {
      var n := |cmds| - 1;
      UnchangedIsRead(s, cmds[..n], k);
      PlainLeaves(Plain(s, cmds[..n]), After(s, cmds[..n]), cmds[n], k);
    }
  }

  // ---------- A run that loses a change ----------

  /** Changing a page without reporting it, or appending one as the free-space map code does
      (src/file_manager/data_file_manager.cpp:46-50). */
  function ChangeQuietly(k: PageKey, data: Data, appended: bool): seq<Command> {
    if appended then [Append(k), Unpin(k, false), Write(k, data)] else [Fetch(k), Write(k, data), Unpin(k, false)]
  }

  /** What the files hold after that change. */
  function FilesAfterChange(disk: Disk, k: PageKey, appended: bool): Disk {
    if appended then disk[k := ZeroPage()] else disk
  }

  /** Pinning and unpinning pages one after the other. */
  function Visits(keys: seq<PageKey>): seq<Command> {
    if keys == [] then [] else Visits(keys[..|keys| - 1]) + [Fetch(keys[|keys| - 1]), Unpin(keys[|keys| - 1], false)]
  }

  /** The first of these pages was changed quietly, and then the others were visited. */
  function Visited(size: nat, disk: Disk, data: Data, keys: seq<PageKey>): Store
    requires keys != []
  {
    Store(size, map k | k in keys :: Page(if k == keys[0] then data else DiskAt(disk, k), 0, false), keys, disk)
  }

  lemma AfterTwo(s: Store, cmds: seq<Command>, c: Command, c': Command)
    ensures After(s, cmds + [c, c']) == Next(Next(After(s, cmds), c), c')
  {
    var all := cmds + [c, c'];
    NextAfter(s, all, |cmds|);
    NextAfter(s, all, |cmds| + 1);
    assert all[..|cmds|] == cmds && all[..|cmds| + 2] == all;
  }

  lemma SplitLast(keys: seq<PageKey>)
    requires Distinct(keys) && keys != []
    ensures var n := |keys| - 1; Distinct(keys[..n]) && keys[n] !in keys[..n] && keys == keys[..n] + [keys[n]]
  {
  }

  lemma {:induction false} DistinctKeys(keys: seq<PageKey>)
    requires Distinct(keys)
    ensures |set k | k in keys| == |keys|
  {
    if keys != [] {
      var rest := keys[..|keys| - 1];
      SplitLast(keys);
      DistinctKeys(rest);
      assert (set k | k in keys) == (set k | k in rest) + {keys[|keys| - 1]};
    }
  }

  lemma VisitedSize(size: nat, disk: Disk, data: Data, keys: seq<PageKey>)
    requires keys != [] && Distinct(keys)
    ensures |Visited(size, disk, data, keys).pages| == |keys|
  {
    DistinctKeys(keys);
    assert Visited(size, disk, data, keys).pages.Keys == set k | k in keys;
  }

  /** A visit to a page that is not resident. */
  lemma Visit(s: Store, k: PageKey)
    requires k !in s.pages && !IsRefused(s, k)
    ensures var r := WithRoom(s);
            Next(Next(s, Fetch(k)), Unpin(k, false))
            == r.(pages := r.pages[k := Page(DiskAt(r.files, k), 0, false)], idle := r.idle + [k])
  {
  }

  /** As long as there are frames left, nothing leaves. */
  lemma VisitOne(size: nat, disk: Disk, data: Data, keys: seq<PageKey>, k: PageKey)
    requires keys != [] && Distinct(keys) && k !in keys && |keys| < size
    ensures Next(Next(Visited(size, disk, data, keys), Fetch(k)), Unpin(k, false)) == Visited(size, disk, data, keys + [k])
  {
    var s := Visited(size, disk, data, keys);
    VisitedSize(size, disk, data, keys);
    Visit(s, k);
    assert s.pages[k := Page(DiskAt(disk, k), 0, false)] == Visited(size, disk, data, keys + [k]).pages;
  }

  lemma AfterChange(size: nat, disk: Disk, a: PageKey, data: Data, appended: bool)
    requires size >= 1
    ensures After(Initial(size, disk), ChangeQuietly(a, data, appended)) == Visited(size, FilesAfterChange(disk, a, appended), data, [a])
    ensures AllowedRun(Initial(size, disk), ChangeQuietly(a, data, appended))
  {
    var s, run := Initial(size, disk), ChangeQuietly(a, data, appended);
    NextAfter(s, run, 0);
    NextAfter(s, run, 1);
    NextAfter(s, run, 2);
    assert run[..0] == [] && run[..3] == run;
    assert After(s, run).pages == Visited(size, FilesAfterChange(disk, a, appended), data, [a]).pages;
    forall i | 0 <= i < |run| ensures Allowed(After(s, run[..i]), run[i]) {
      assert i == 0 || i == 1 || i == 2;
    }
  }

  lemma SplitTail(a: PageKey, rest: seq<PageKey>)
    requires Distinct([a] + rest) && rest != []
    ensures var n := |rest| - 1;
            && [a] + rest == ([a] + rest[..n]) + [rest[n]]
            && Distinct([a] + rest[..n]) && rest[n] !in [a] + rest[..n]
  {
    var n := |rest| - 1;
    SplitLast([a] + rest);
    assert ([a] + rest)[..n + 1] == [a] + rest[..n];
  }

  lemma {:induction false} VisitAll(s: Store, change: seq<Command>, disk: Disk, data: Data, a: PageKey, rest: seq<PageKey>)
    requires After(s, change) == Visited(s.size, disk, data, [a]) && Distinct([a] + rest) && |rest| < s.size
    ensures After(s, change + Visits(rest)) == Visited(s.size, disk, data, [a] + rest)
  {
    if rest == [] {
      assert change + Visits(rest) == change && [a] + rest == [a];
    } else {
      var n := |rest| - 1;
      SplitTail(a, rest);
      VisitAll(s, change, disk, data, a, rest[..n]);
      VisitOne(s.size, disk, data, [a] + rest[..n], rest[n]);
      VisitLast(s, change, rest);
    }
  }

  lemma VisitLast(s: Store, change: seq<Command>, keys: seq<PageKey>)
    requires keys != []
    ensures var k := keys[|keys| - 1];
            After(s, change + Visits(keys)) == Next(Next(After(s, change + Visits(keys[..|keys| - 1])), Fetch(k)), Unpin(k, false))
  {
    var k, before := keys[|keys| - 1], change + Visits(keys[..|keys| - 1]);
    AfterTwo(s, before, Fetch(k), Unpin(k, false));
    assert change + Visits(keys) == before + [Fetch(k), Unpin(k, false)];
  }

  /** Once every frame was needed for another page, the change is gone. */
  lemma ChangeLeaves(size: nat, disk: Disk, data: Data, keys: seq<PageKey>, k: PageKey)
    requires keys != [] && Distinct(keys) && k !in keys && |keys| == size
    ensures var s := Next(Next(Visited(size, disk, data, keys), Fetch(k)), Unpin(k, false));
            keys[0] !in s.pages && s.files == disk && s.idle != []
  {
    var s := Visited(size, disk, data, keys);
    VisitedSize(size, disk, data, keys);
    Visit(s, k);
  }

  /** A change that nobody reported is lost after visits to as many other pages as there are frames, for every size. */
  lemma QuietChangeIsLost(size: nat, disk: Disk, a: PageKey, data: Data, appended: bool, keys: seq<PageKey>)
    requires size >= 1 && |keys| == size && Distinct([a] + keys)
    ensures var run := ChangeQuietly(a, data, appended) + Visits(keys) + [Fetch(a)];
            && ReplyTo(After(Initial(size, disk), run), Read(a)) == Bytes(if appended then ZeroPage() else DiskAt(disk, a))
            && PinsOf(After(Initial(size, disk), run), a) == 1
  {
    var s, n, change, files := Initial(size, disk), |keys| - 1, ChangeQuietly(a, data, appended), FilesAfterChange(disk, a, appended);
    SplitTail(a, keys);
    AfterChange(size, disk, a, data, appended);
    VisitAll(s, change, files, data, a, keys[..n]);
    ChangeLeaves(size, files, data, [a] + keys[..n], keys[n]);
    VisitLast(s, change, keys);
    OneMore(s, change + Visits(keys), Fetch(a));
  }

  lemma {:induction false} VisitsLength(keys: seq<PageKey>)
    ensures |Visits(keys)| == 2 * |keys|
    ensures forall c :: c in Visits(keys) ==> c.Fetch? || c.Unpin?
  {
    if keys != [] {
      VisitsLength(keys[..|keys| - 1]);
    }
  }

  /** Changing a page quietly, visiting others, and reading the page. */
  function QuietRun(a: PageKey, data: Data, appended: bool, keys: seq<PageKey>): seq<Command> {
    ChangeQuietly(a, data, appended) + Visits(keys) + [Fetch(a), Read(a)]
  }

  lemma QuietRunAllowed(s: Store, a: PageKey, data: Data, appended: bool, keys: seq<PageKey>)
    requires AllowedRun(s, ChangeQuietly(a, data, appended))
    requires a in After(s, ChangeQuietly(a, data, appended) + Visits(keys) + [Fetch(a)]).pages
    ensures AllowedRun(s, QuietRun(a, data, appended, keys))
  {
    var change, run := ChangeQuietly(a, data, appended), QuietRun(a, data, appended, keys);
    VisitsLength(keys);
    forall i | 0 <= i < |run| ensures Allowed(After(s, run[..i]), run[i]) {
      if i < |change| {
        assert run[..i] == change[..i] && run[i] == change[i];
      } else if i < |change + Visits(keys)| {
        assert run[i] == Visits(keys)[i - 3];
      } else if i == |run| - 1 {
        assert run[..i] == change + Visits(keys) + [Fetch(a)];
      }
    }
  }

  /** That run is one that the pool has to expect of a client, and its last reply is what the file held. */
  lemma QuietRunReads(size: nat, disk: Disk, a: PageKey, data: Data, appended: bool, keys: seq<PageKey>)
    requires size >= 1 && |keys| == size && Distinct([a] + keys)
    ensures var s, run := Initial(size, disk), QuietRun(a, data, appended, keys);
            && AllowedRun(s, run) && run != []
            && Replies(s, run)[|run| - 1] == Bytes(if appended then ZeroPage() else DiskAt(disk, a))
  {
    var s, run := Initial(size, disk), QuietRun(a, data, appended, keys);
    QuietChangeIsLost(size, disk, a, data, appended, keys);
    AfterChange(size, disk, a, data, appended);
    QuietRunAllowed(s, a, data, appended, keys);
    assert run[..|run| - 1] == ChangeQuietly(a, data, appended) + Visits(keys) + [Fetch(a)];
    ReplyAt(s, run, |run| - 1);
  }

  lemma OneMore(s: Store, cmds: seq<Command>, c: Command)
    ensures After(s, cmds + [c]) == Next(After(s, cmds), c)
  {
    assert (cmds + [c])[..|cmds|] == cmds;
  }
}
