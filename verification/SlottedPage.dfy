/** The slotted page that stores records (src/page/data_file_page.cpp). */
module SlottedPage {
  import opened Basics

  type Byte = int

  const INVALID_OFFSET: int := -1

  /** sizeof(Slot) and the size of the three counters at the start of the page. */
  const SLOT_SIZE: nat := 5
  const MIN_FIXED_SIZE: nat := 6
  const MAX_RECORD_SIZE: nat := PAGE_SIZE - MIN_FIXED_SIZE - SLOT_SIZE

  datatype Slot = Slot(offset: int, length: int, isBlob: bool)

  datatype Record = Record(bytes: seq<Byte>, isBlob: bool)

  /** The page as a value: its slot array, where the records start, how many slots are invalid, and all its bytes. */
  datatype DataPage = DataPage(slots: seq<Slot>, freeEnd: int, invalidNum: int, bytes: seq<Byte>)

  predicate Live(p: DataPage, i: int) {
    0 <= i < |p.slots| && p.slots[i].offset != INVALID_OFFSET
  }

  function CountInvalid(slots: seq<Slot>): (n: nat)
    ensures n <= |slots|
  {
    if slots == [] then 0
    else CountInvalid(slots[..|slots| - 1]) + if slots[|slots| - 1].offset == INVALID_OFFSET then 1 else 0
  }

  /** Bytes between the slot array and the records. */
  function FreeBytes(p: DataPage): int {
    p.freeEnd - MIN_FIXED_SIZE - SLOT_SIZE * |p.slots|
  }

  ghost predicate Within(p: DataPage) {
    forall i :: Live(p, i) ==>
      p.freeEnd <= p.slots[i].offset && 1 <= p.slots[i].length && p.slots[i].offset + p.slots[i].length <= PAGE_SIZE
  }

  /** Everything lies inside the page. */
  ghost predicate Bounded(p: DataPage) {
    |p.bytes| == PAGE_SIZE && 0 <= FreeBytes(p) && p.freeEnd <= PAGE_SIZE && Within(p)
  }

  ghost predicate Disjoint(p: DataPage) {
    forall i, j :: Live(p, i) && Live(p, j) && i != j ==>
      || p.slots[i].offset + p.slots[i].length <= p.slots[j].offset
      || p.slots[j].offset + p.slots[j].length <= p.slots[i].offset
  }

  ghost predicate Covers(p: DataPage, i: int, pos: int) {
    Live(p, i) && p.slots[i].offset <= pos < p.slots[i].offset + p.slots[i].length
  }

  /** Every byte from freeEnd on belongs to a live record. */
  ghost predicate Tiled(p: DataPage) {
    forall pos {:trigger Covered(p, pos)} :: p.freeEnd <= pos < PAGE_SIZE ==> Covered(p, pos)
  }

  ghost predicate Covered(p: DataPage, pos: int) {
    exists i :: Covers(p, i, pos)
  }

  /** The live records tile the end of the page exactly, and the slot array does not reach them. */
  ghost predicate PageOk(p: DataPage) {
    Bounded(p) && Disjoint(p) && Tiled(p) && p.invalidNum == CountInvalid(p.slots)
  }

  /** The records by slot. */
  ghost function Records(p: DataPage): map<int, Record>
    requires PageOk(p)
  {
    map i | 0 <= i < |p.slots| && Live(p, i) :: RecordAt(p, i)
  }

  function RecordAt(p: DataPage, i: int): Record
    requires Live(p, i) && 0 <= p.slots[i].offset <= p.slots[i].offset + p.slots[i].length <= |p.bytes|
  {
    Record(p.bytes[p.slots[i].offset..p.slots[i].offset + p.slots[i].length], p.slots[i].isBlob)
  }

  function EmptyPage(bytes: seq<Byte>): DataPage {
    DataPage([], PAGE_SIZE, 0, bytes)
  }

  function ZeroBytes(): seq<Byte> {
    seq(PAGE_SIZE, _ => 0)
  }

  lemma EmptyOk(bytes: seq<Byte>)
    requires |bytes| == PAGE_SIZE
    ensures PageOk(EmptyPage(bytes)) && Records(EmptyPage(bytes)) == map[]
    ensures FreeBytes(EmptyPage(bytes)) == PAGE_SIZE - MIN_FIXED_SIZE
  {
  }

  // ---------- Counting invalid slots ----------

  lemma {:induction false} CountUpdate(slots: seq<Slot>, i: nat, s: Slot)
    requires i < |slots|
    ensures CountInvalid(slots[i := s]) == CountInvalid(slots)
              - (if slots[i].offset == INVALID_OFFSET then 1 else 0) + (if s.offset == INVALID_OFFSET then 1 else 0)
  {
    var last := |slots| - 1;
    if i == last {
      assert slots[i := s][..last] == slots[..last];
    } else {
      assert slots[i := s][..last] == slots[..last][i := s];
      CountUpdate(slots[..last], i, s);
    }
  }

  lemma CountAppend(slots: seq<Slot>, s: Slot)
    ensures CountInvalid(slots + [s]) == CountInvalid(slots) + if s.offset == INVALID_OFFSET then 1 else 0
  {
    assert (slots + [s])[..|slots|] == slots;
  }

  /** The count only depends on which slots are invalid. */
  lemma {:induction false} CountSame(slots: seq<Slot>, slots': seq<Slot>)
    requires |slots| == |slots'|
    requires forall i :: 0 <= i < |slots| ==> (slots[i].offset == INVALID_OFFSET <==> slots'[i].offset == INVALID_OFFSET)
    ensures CountInvalid(slots) == CountInvalid(slots')
  {
    if slots != [] {
      CountSame(slots[..|slots| - 1], slots'[..|slots| - 1]);
    }
  }

  /** The first invalid slot; one exists whenever the count is not zero. */
  function FirstInvalid(slots: seq<Slot>): (i: nat)
    ensures i <= |slots| && (forall j :: 0 <= j < i ==> slots[j].offset != INVALID_OFFSET)
    ensures i < |slots| ==> slots[i].offset == INVALID_OFFSET
  {
    if slots == [] || slots[0].offset == INVALID_OFFSET then 0 else 1 + FirstInvalid(slots[1..])
  }

  lemma {:induction false} CountZero(slots: seq<Slot>)
    requires forall j :: 0 <= j < |slots| ==> slots[j].offset != INVALID_OFFSET
    ensures CountInvalid(slots) == 0
  {
    if slots != [] {
      CountZero(slots[..|slots| - 1]);
    }
  }

  lemma ReuseFindsSlot(slots: seq<Slot>)
    ensures FirstInvalid(slots) < |slots| <==> CountInvalid(slots) != 0
  {
    var i := FirstInvalid(slots);
    if i == |slots| {
      CountZero(slots);
    } else {
      CountUpdate(slots, i, Slot(0, 1, false));
    }
  }

  // ---------- Inserting ----------

  predicate Fits(p: DataPage, size: int) {
    size + (if p.invalidNum != 0 then 0 else SLOT_SIZE) <= FreeBytes(p)
  }

  function TargetSlot(p: DataPage): nat {
    if p.invalidNum != 0 then FirstInvalid(p.slots) else |p.slots|
  }

  function SetSlot(slots: seq<Slot>, i: nat, s: Slot): seq<Slot>
    requires i <= |slots|
  {
    if i < |slots| then slots[i := s] else slots + [s]
  }

  function PageInsert(p: DataPage, record: seq<Byte>, isBlob: bool): DataPage
    requires 0 <= p.freeEnd - |record| && p.freeEnd <= |p.bytes|
  {
    var end := p.freeEnd - |record|;
    DataPage(SetSlot(p.slots, TargetSlot(p), Slot(end, |record|, isBlob)), end,
             if p.invalidNum != 0 then p.invalidNum - 1 else p.invalidNum,
             p.bytes[..end] + record + p.bytes[p.freeEnd..])
  }

  lemma InsertCount(p: DataPage, record: seq<Byte>, isBlob: bool)
    requires 0 <= p.freeEnd - |record| && p.freeEnd <= |p.bytes| && p.invalidNum == CountInvalid(p.slots)
    ensures var p' := PageInsert(p, record, isBlob);
            && p'.invalidNum == CountInvalid(p'.slots)
            && Live(p', TargetSlot(p)) && !Live(p, TargetSlot(p))
            && |p'.slots| == |p.slots| + (if p.invalidNum != 0 then 0 else 1)
            && p'.slots[TargetSlot(p)] == Slot(p.freeEnd - |record|, |record|, isBlob)
            && forall i :: i != TargetSlot(p) ==> Live(p', i) == Live(p, i) && (Live(p, i) ==> p'.slots[i] == p.slots[i])
  {
    ReuseFindsSlot(p.slots);
    var p', t := PageInsert(p, record, isBlob), TargetSlot(p);
    if t < |p.slots| {
      CountUpdate(p.slots, t, p'.slots[t]);
    } else {
      CountAppend(p.slots, p'.slots[t]);
    }
  }

  lemma InsertTiled(p: DataPage, record: seq<Byte>, isBlob: bool)
    requires PageOk(p) && Fits(p, |record|)
    ensures Tiled(PageInsert(p, record, isBlob))
  {
    InsertCount(p, record, isBlob);
    var p' := PageInsert(p, record, isBlob);
    forall pos | p'.freeEnd <= pos < PAGE_SIZE ensures Covered(p', pos) {
      if pos < p.freeEnd {
        assert Covers(p', TargetSlot(p), pos);
      } else {
        assert Covered(p, pos);
        var i :| Covers(p, i, pos);
        assert Covers(p', i, pos);
      }
    }
  }

  lemma InsertOk(p: DataPage, record: seq<Byte>, isBlob: bool)
    requires PageOk(p) && |record| >= 1 && Fits(p, |record|)
    ensures PageOk(PageInsert(p, record, isBlob))
  {
    InsertCount(p, record, isBlob);
    InsertTiled(p, record, isBlob);
  }

  /** A record fits exactly if the page is sound once it is there. */
  lemma FitsExactly(p: DataPage, record: seq<Byte>, isBlob: bool)
    requires PageOk(p) && 1 <= |record| <= p.freeEnd
    ensures Fits(p, |record|) <==> PageOk(PageInsert(p, record, isBlob))
  {
    InsertCount(p, record, isBlob);
    if Fits(p, |record|) {
      InsertOk(p, record, isBlob);
    }
  }

  /** A region outside the new record reads the same; the record's own region reads the record. */
  lemma InsertSlice(b: seq<Byte>, end: nat, freeEnd: nat, record: seq<Byte>, lo: nat, hi: nat)
    requires end + |record| == freeEnd <= |b| && lo <= hi <= |b|
    ensures var b' := b[..end] + record + b[freeEnd..];
            && |b'| == |b|
            && (lo == end && hi == freeEnd ==> b'[lo..hi] == record)
            && (freeEnd <= lo ==> b'[lo..hi] == b[lo..hi])
  {
    var b' := b[..end] + record + b[freeEnd..];
    if lo == end && hi == freeEnd {
      assert forall x :: 0 <= x < |record| ==> b'[x + end] == record[x];
      SameSlice(record, b', 0, |record|, end);
      assert record[0..|record|] == record;
    }
    if freeEnd <= lo {
      assert forall x :: lo <= x < hi ==> b'[x] == b[x];
      SameSlice(b, b', lo, hi, 0);
    }
  }

  lemma InsertBytes(p: DataPage, record: seq<Byte>, isBlob: bool, i: int)
    requires Bounded(p) && p.invalidNum == CountInvalid(p.slots) && Fits(p, |record|) && Live(PageInsert(p, record, isBlob), i)
    ensures if i == TargetSlot(p) then RecordAt(PageInsert(p, record, isBlob), i) == Record(record, isBlob)
            else Live(p, i) && RecordAt(PageInsert(p, record, isBlob), i) == RecordAt(p, i)
  {
    InsertCount(p, record, isBlob);
    var end := p.freeEnd - |record|;
    if i == TargetSlot(p) {
      InsertSlice(p.bytes, end, p.freeEnd, record, end, p.freeEnd);
    } else {
      InsertSlice(p.bytes, end, p.freeEnd, record, p.slots[i].offset, p.slots[i].offset + p.slots[i].length);
    }
  }

  /** What the record map says about one slot. */
  lemma RecordsAt(p: DataPage, i: int)
    requires PageOk(p)
    ensures i in Records(p) <==> Live(p, i)
    ensures Live(p, i) ==> Records(p)[i] == RecordAt(p, i)
  {
  }

  /** Inserting adds exactly one record, under a slot id that was not in use. */
  lemma InsertRefines(p: DataPage, record: seq<Byte>, isBlob: bool)
    requires PageOk(p) && |record| >= 1 && Fits(p, |record|)
    ensures var p' := PageInsert(p, record, isBlob);
            && PageOk(p') && TargetSlot(p) !in Records(p)
            && Records(p') == Records(p)[TargetSlot(p) := Record(record, isBlob)]
            && FreeBytes(p') == FreeBytes(p) - |record| - (if p.invalidNum != 0 then 0 else SLOT_SIZE)
            && p'.invalidNum == if p.invalidNum != 0 then p.invalidNum - 1 else 0
  {
    InsertOk(p, record, isBlob);
    InsertCount(p, record, isBlob);
    var p', t := PageInsert(p, record, isBlob), TargetSlot(p);
    var after, expected := Records(p'), Records(p)[t := Record(record, isBlob)];
    RecordsAt(p, t);
    forall i ensures i in after <==> i in expected {
      RecordsAt(p, i);
      RecordsAt(p', i);
    }
    forall i | i in after ensures after[i] == expected[i] {
      RecordsAt(p, i);
      RecordsAt(p', i);
      InsertBytes(p, record, isBlob, i);
    }
  }

  // ---------- Removing ----------

  /** Removing record k: the records below it move up over it, and their offsets with them. */
  function Shifted(s: Slot, freeEnd: int, off: int, len: int): Slot {
    if s.offset != INVALID_OFFSET && freeEnd <= s.offset < off then s.(offset := s.offset + len) else s
  }

  function ShiftedSlots(slots: seq<Slot>, freeEnd: int, off: int, len: int): (r: seq<Slot>)
    ensures |r| == |slots| && forall i :: 0 <= i < |slots| ==> r[i] == Shifted(slots[i], freeEnd, off, len)
  {
    seq(|slots|, i requires 0 <= i < |slots| => Shifted(slots[i], freeEnd, off, len))
  }

  function PageRemove(p: DataPage, k: int): DataPage
    requires Live(p, k) && 0 <= p.freeEnd <= p.slots[k].offset && 0 <= p.slots[k].length
    requires p.slots[k].offset + p.slots[k].length <= |p.bytes|
  {
    var off, len := p.slots[k].offset, p.slots[k].length;
    var slots := ShiftedSlots(p.slots, p.freeEnd, off, len);
    DataPage(slots[k := slots[k].(offset := INVALID_OFFSET)], p.freeEnd + len, p.invalidNum + 1,
             p.bytes[..p.freeEnd + len] + p.bytes[p.freeEnd..off] + p.bytes[off + len..])
  }

  lemma RemoveSlotsAt(p: DataPage, k: int, i: int)
    requires PageOk(p) && Live(p, k) && 0 <= i < |p.slots|
    ensures var p' := PageRemove(p, k);
            && |p'.slots| == |p.slots| && (Live(p', i) <==> Live(p, i) && i != k)
            && (Live(p', i) ==>
                  && p'.slots[i].length == p.slots[i].length && p'.slots[i].isBlob == p.slots[i].isBlob
                  && (if p.slots[i].offset < p.slots[k].offset
                      then p'.slots[i].offset == p.slots[i].offset + p.slots[k].length
                           && p.slots[i].offset + p.slots[i].length <= p.slots[k].offset
                      else p'.slots[i].offset == p.slots[i].offset >= p.slots[k].offset + p.slots[k].length))
  {
  }

  /** A region above the removed record reads the same; one below it reads the same at its new place. */
  lemma RemoveSlice(b: seq<Byte>, freeEnd: nat, off: nat, len: nat, lo: nat, hi: nat)
    requires freeEnd <= off <= off + len <= |b| && lo <= hi <= |b|
    ensures var b' := b[..freeEnd + len] + b[freeEnd..off] + b[off + len..];
            && |b'| == |b|
            && (off + len <= lo ==> b'[lo..hi] == b[lo..hi])
            && (freeEnd <= lo && hi <= off ==> b'[lo + len..hi + len] == b[lo..hi])
  {
    var b' := b[..freeEnd + len] + b[freeEnd..off] + b[off + len..];
    if freeEnd <= lo && hi <= off {
      assert forall x :: lo <= x < hi ==> b'[x + len] == b[x];
      SameSlice(b, b', lo, hi, len);
    }
    if off + len <= lo {
      assert forall x :: lo <= x < hi ==> b'[x] == b[x];
      SameSlice(b, b', lo, hi, 0);
    }
  }

  lemma SameSlice(b: seq<Byte>, b': seq<Byte>, lo: nat, hi: nat, d: nat)
    requires lo <= hi <= |b| && hi + d <= |b'| && forall x {:trigger b[x]} :: lo <= x < hi ==> b'[x + d] == b[x]
    ensures b'[lo + d..hi + d] == b[lo..hi]
  {
    var s, s' := b[lo..hi], b'[lo + d..hi + d];
    forall i | 0 <= i < |s| ensures s'[i] == s[i] {
      assert s[i] == b[lo + i] && s'[i] == b'[lo + i + d];
    }
  }

  /** A record above the removed one stays where it is. */
  lemma RemoveBytesAbove(p: DataPage, k: int, lo: nat, hi: nat)
    requires Live(p, k) && 0 <= p.freeEnd <= p.slots[k].offset && 0 <= p.slots[k].length
    requires p.slots[k].offset + p.slots[k].length <= lo <= hi <= |p.bytes|
    ensures |PageRemove(p, k).bytes| == |p.bytes| && PageRemove(p, k).bytes[lo..hi] == p.bytes[lo..hi]
  {
    RemoveSlice(p.bytes, p.freeEnd, p.slots[k].offset, p.slots[k].length, lo, hi);
  }

  /** A record below the removed one moves up by its length. */
  lemma RemoveBytesBelow(p: DataPage, k: int, lo: nat, hi: nat)
    requires Live(p, k) && 0 <= p.slots[k].length && p.slots[k].offset + p.slots[k].length <= |p.bytes|
    requires 0 <= p.freeEnd <= lo <= hi <= p.slots[k].offset
    ensures |PageRemove(p, k).bytes| == |p.bytes|
    ensures var len := p.slots[k].length; PageRemove(p, k).bytes[lo + len..hi + len] == p.bytes[lo..hi]
  {
    RemoveSlice(p.bytes, p.freeEnd, p.slots[k].offset, p.slots[k].length, lo, hi);
  }

  /** The bytes of every other live record survive the move. */
  lemma RemoveBytes(p: DataPage, k: int, i: int)
    requires PageOk(p) && Live(p, k) && Live(p, i) && i != k
    ensures Live(PageRemove(p, k), i) && RecordAt(PageRemove(p, k), i) == RecordAt(p, i)
  {
    RemoveSlotsAt(p, k, i);
    var s := p.slots[i];
    if s.offset < p.slots[k].offset {
      RemoveBytesBelow(p, k, s.offset, s.offset + s.length);
    } else {
      RemoveBytesAbove(p, k, s.offset, s.offset + s.length);
    }
  }

  lemma RemoveTiled(p: DataPage, k: int)
    requires PageOk(p) && Live(p, k)
    ensures Tiled(PageRemove(p, k))
  {
    var p', off, len := PageRemove(p, k), p.slots[k].offset, p.slots[k].length;
    forall pos | p'.freeEnd <= pos < PAGE_SIZE ensures Covered(p', pos) {
      var pos0 := if pos < off + len then pos - len else pos;
      assert Covered(p, pos0);
      var i :| Covers(p, i, pos0);
      RemoveSlotsAt(p, k, i);
      assert Covers(p', i, pos);
    }
  }

  lemma RemoveCount(p: DataPage, k: int)
    requires PageOk(p) && Live(p, k)
    ensures CountInvalid(PageRemove(p, k).slots) == p.invalidNum + 1
  {
    var p' := PageRemove(p, k);
    forall i | 0 <= i < |p.slots|
      ensures i != k ==> (p'.slots[i].offset == INVALID_OFFSET <==> p.slots[i].offset == INVALID_OFFSET)
    {
      RemoveSlotsAt(p, k, i);
    }
    CountUpdate(p.slots, k, p'.slots[k]);
    CountSame(p.slots[k := p'.slots[k]], p'.slots);
  }

  lemma RemoveDisjoint(p: DataPage, k: int)
    requires PageOk(p) && Live(p, k)
    ensures Disjoint(PageRemove(p, k))
  {
    var p' := PageRemove(p, k);
    forall i, j | Live(p', i) && Live(p', j) && i != j
      ensures || p'.slots[i].offset + p'.slots[i].length <= p'.slots[j].offset
              || p'.slots[j].offset + p'.slots[j].length <= p'.slots[i].offset
    {
      RemoveSlotsAt(p, k, i);
      RemoveSlotsAt(p, k, j);
    }
  }

  lemma RemoveOk(p: DataPage, k: int)
    requires PageOk(p) && Live(p, k)
    ensures PageOk(PageRemove(p, k))
  {
    var p' := PageRemove(p, k);
    RemoveTiled(p, k);
    RemoveCount(p, k);
    RemoveDisjoint(p, k);
    forall i | Live(p', i)
      ensures p'.freeEnd <= p'.slots[i].offset && 1 <= p'.slots[i].length && p'.slots[i].offset + p'.slots[i].length <= PAGE_SIZE
    {
      RemoveSlotsAt(p, k, i);
    }
  }

  /** Removing takes away exactly one record; all others keep their slot ids and bytes. */
  lemma RemoveRefines(p: DataPage, k: int)
    requires PageOk(p) && k in Records(p)
    ensures var p' := PageRemove(p, k);
            && PageOk(p') && Records(p') == Records(p) - {k}
            && FreeBytes(p') == FreeBytes(p) + |Records(p)[k].bytes| && p'.invalidNum == p.invalidNum + 1
  {
    RemoveOk(p, k);
    var p' := PageRemove(p, k);
    var after, expected := Records(p'), Records(p) - {k};
    forall i ensures i in after <==> i in expected {
      RecordsAt(p, i);
      RecordsAt(p', i);
      if 0 <= i < |p.slots| { RemoveSlotsAt(p, k, i); }
    }
    forall i | i in after ensures after[i] == expected[i] {
      RecordsAt(p, i);
      RecordsAt(p', i);
      RemoveBytes(p, k, i);
    }
  }

  // ---------- Reading ----------

  /** The value stored in a slot, provided the slot is live and its record carries the key. */
  function PageGet(p: DataPage, key: seq<Byte>, k: int): Option<(seq<Byte>, bool)>
    requires 0 <= k < |p.slots|
    requires Live(p, k) ==> 0 <= p.slots[k].offset && RECORD_KEY_SIZE <= p.slots[k].length
                            && p.slots[k].offset + p.slots[k].length <= |p.bytes|
  {
    var off, len := p.slots[k].offset, p.slots[k].length;
    if off == INVALID_OFFSET then None
    else if p.bytes[off..off + RECORD_KEY_SIZE] != key then None
    else Some((p.bytes[off + RECORD_KEY_SIZE..off + RECORD_KEY_SIZE + (len - RECORD_KEY_SIZE)], p.slots[k].isBlob))
  }

  /** The key and the value inside a record's bytes. */
  lemma SliceOfSlice(b: seq<Byte>, off: nat, len: nat)
    requires RECORD_KEY_SIZE <= len && off + len <= |b|
    ensures b[off..off + len][..RECORD_KEY_SIZE] == b[off..off + RECORD_KEY_SIZE]
    ensures b[off..off + len][RECORD_KEY_SIZE..] == b[off + RECORD_KEY_SIZE..off + RECORD_KEY_SIZE + (len - RECORD_KEY_SIZE)]
  {
  }

  /** What a page answers for one of its slots, in terms of the records it holds. */
  lemma GetAt(p: DataPage, key: seq<Byte>, k: int)
    requires PageOk(p) && 0 <= k < |p.slots|
    requires k in Records(p) ==> |Records(p)[k].bytes| >= RECORD_KEY_SIZE
    ensures Live(p, k) ==> 0 <= p.slots[k].offset && RECORD_KEY_SIZE <= p.slots[k].length
                           && p.slots[k].offset + p.slots[k].length <= |p.bytes|
    ensures PageGet(p, key, k) ==
              if k in Records(p) && Records(p)[k].bytes[..RECORD_KEY_SIZE] == key
              then Some((Records(p)[k].bytes[RECORD_KEY_SIZE..], Records(p)[k].isBlob)) else None
  {
    RecordsAt(p, k);
    if Live(p, k) {
      SliceOfSlice(p.bytes, p.slots[k].offset, p.slots[k].length);
    }
  }

  /** A slot yields a value exactly if its record is the key followed by that value. */
  lemma GetRefines(p: DataPage, key: seq<Byte>, value: seq<Byte>, isBlob: bool, k: int)
    requires PageOk(p) && 0 <= k < |p.slots|
    requires Live(p, k) ==> RECORD_KEY_SIZE <= p.slots[k].length
    ensures PageGet(p, key, k) == Some((value, isBlob)) <==>
              |key| == RECORD_KEY_SIZE && k in Records(p) && Records(p)[k] == Record(key + value, isBlob)
  {
    RecordsAt(p, k);
    GetAt(p, key, k);
    if k in Records(p) {
      var all := Records(p)[k].bytes;
      assert all == all[..RECORD_KEY_SIZE] + all[RECORD_KEY_SIZE..];
    }
    if |key| == RECORD_KEY_SIZE {
      assert (key + value)[..RECORD_KEY_SIZE] == key && (key + value)[RECORD_KEY_SIZE..] == value;
    }
  }
}
