/** The slotted page in place: a byte buffer with memmove and memcpy, a slot array and three counters
    (src/page/data_file_page.cpp). */
module DataFilePage {
  import opened Basics
  import opened SlottedPage

  /** What removal reports: the length of an ordinary record, or the value of one that refers to a blob. */
  datatype Removed = Length(length: int) | BlobValue(value: seq<Byte>)

  class DataFilePage {
    const data: array<Byte>
    var slots: seq<Slot>
    var recordNum: int
    var invalidSlotNum: int
    var freeSpaceEndOffset: int

    ghost function Value(): DataPage
      reads this, data
    {
      DataPage(slots, freeSpaceEndOffset, invalidSlotNum, data[..])
    }

    ghost predicate Valid()
      reads this, data
    {
      PageOk(Value()) && recordNum + invalidSlotNum == |slots|
    }

    constructor (data: array<Byte>)
      requires data.Length == PAGE_SIZE
      ensures Valid() && this.data == data && Records(Value()) == map[]
      ensures Value() == EmptyPage(data[..])
    {
      this.data := data;
      slots, recordNum, invalidSlotNum, freeSpaceEndOffset := [], 0, 0, PAGE_SIZE;
    }

    /** The value stored in a slot: exactly the bytes that follow the key in the slot's record, if it starts with the key. */
    method GetRecordValue(key: seq<Byte>, slotArrayIndex: int) returns (r: Option<(seq<Byte>, bool)>)
      requires Valid() && 0 <= slotArrayIndex < |slots|
      requires Live(Value(), slotArrayIndex) ==> slots[slotArrayIndex].length >= RECORD_KEY_SIZE
      ensures forall v, b {:trigger Record(key + v, b)} ::
                r == Some((v, b)) <==>
                |key| == RECORD_KEY_SIZE && slotArrayIndex in Records(Value()) && Records(Value())[slotArrayIndex] == Record(key + v, b)
    {
      ghost var p := Value();
      RecordsAt(p, slotArrayIndex);
      forall v, b
        ensures PageGet(p, key, slotArrayIndex) == Some((v, b)) <==>
                |key| == RECORD_KEY_SIZE && slotArrayIndex in Records(p) && Records(p)[slotArrayIndex] == Record(key + v, b)
      {
        GetRefines(p, key, v, b, slotArrayIndex);
      }
      var s := slots[slotArrayIndex];
      if s.offset == INVALID_OFFSET {
        return None;
      }
      if data[s.offset..s.offset + RECORD_KEY_SIZE] != key {
        return None;
      }
      var start := s.offset + RECORD_KEY_SIZE;
      return Some((data[start..start + (s.length - RECORD_KEY_SIZE)], s.isBlob));
    }

    /** Takes a record out and closes the gap: the records below it move up, and their offsets with them. */
    method RemoveRecord(slotArrayIndex: int) returns (r: Removed)
      requires Valid() && Live(Value(), slotArrayIndex)
      requires slots[slotArrayIndex].isBlob ==> slots[slotArrayIndex].length >= RECORD_KEY_SIZE
      modifies this, data
      ensures Valid() && Value() == PageRemove(old(Value()), slotArrayIndex)
      ensures r == var rec := RecordAt(old(Value()), slotArrayIndex);
                   if rec.isBlob then BlobValue(rec.bytes[RECORD_KEY_SIZE..]) else Length(|rec.bytes|)
    {
      RemoveOk(Value(), slotArrayIndex);
      r := Report(slotArrayIndex);
      CloseGap(slotArrayIndex);
    }

    /** Moves the records below slot k's up over it and marks the slot as invalid. */
    method CloseGap(k: int)
      requires Live(Value(), k) && data.Length == PAGE_SIZE && 0 <= freeSpaceEndOffset <= slots[k].offset
      requires 0 <= slots[k].length && slots[k].offset + slots[k].length <= PAGE_SIZE
      modifies this, data
      ensures Value() == PageRemove(old(Value()), k) && |slots| == old(|slots|) && recordNum == old(recordNum) - 1
    {
      var off, len := slots[k].offset, slots[k].length;
      var shifted := ShiftOffsets(off, len);
      MoveRecords(off, len);
      slots := shifted[k := shifted[k].(offset := INVALID_OFFSET)];
      freeSpaceEndOffset := freeSpaceEndOffset + len;
      recordNum, invalidSlotNum := recordNum - 1, invalidSlotNum + 1;
    }

    method Report(slotArrayIndex: int) returns (r: Removed)
      requires Valid() && Live(Value(), slotArrayIndex)
      requires slots[slotArrayIndex].isBlob ==> slots[slotArrayIndex].length >= RECORD_KEY_SIZE
      ensures r == var rec := RecordAt(Value(), slotArrayIndex);
                   if rec.isBlob then BlobValue(rec.bytes[RECORD_KEY_SIZE..]) else Length(|rec.bytes|)
    {
      var s := slots[slotArrayIndex];
      if s.isBlob {
        SliceOfSlice(data[..], s.offset, s.length);
        return BlobValue(data[s.offset + RECORD_KEY_SIZE..s.offset + s.length]);
      }
      return Length(s.length);
    }

    /** memmove of the records before `off` up by `len`: every byte is read before any is written. */
    method MoveRecords(off: int, len: int)
      requires data.Length == PAGE_SIZE && 0 <= freeSpaceEndOffset <= off <= off + len <= PAGE_SIZE
      modifies data
      ensures data[..] == old(data[..freeSpaceEndOffset + len] + data[freeSpaceEndOffset..off] + data[off + len..])
    {
      forall i | freeSpaceEndOffset + len <= i < off + len {
        data[i] := data[i - len];
      }
    }

    /** The slot array with every record between the free space and `off` moved up by `len`. */
    method ShiftOffsets(off: int, len: int) returns (shifted: seq<Slot>)
      ensures shifted == ShiftedSlots(slots, freeSpaceEndOffset, off, len)
    {
      shifted := slots;
      var movedSize := off - freeSpaceEndOffset;
      for i := 0 to |slots|
        invariant |shifted| == |slots|
        invariant forall j :: 0 <= j < i ==> shifted[j] == Shifted(slots[j], freeSpaceEndOffset, off, len)
        invariant forall j :: i <= j < |slots| ==> shifted[j] == slots[j]
      {
        var offset := shifted[i].offset;
        if offset != INVALID_OFFSET && freeSpaceEndOffset <= offset && offset < freeSpaceEndOffset + movedSize {
          shifted := shifted[i := shifted[i].(offset := offset + len)];
        }
      }
    }

    /** Stores a record, reusing the first invalid slot if there is one. */
    method InsertRecord(record: seq<Byte>, isBlob: bool) returns (targetIndex: nat)
      requires Valid() && |record| >= 1 && Fits(Value(), |record|)
      modifies this, data
      ensures Valid() && Value() == PageInsert(old(Value()), record, isBlob)
      ensures targetIndex == TargetSlot(old(Value()))
    {
      InsertOk(Value(), record, isBlob);
      targetIndex := PutRecord(record, isBlob);
    }

    /** Writes a record below the others and enters it into the slot array. */
    method PutRecord(record: seq<Byte>, isBlob: bool) returns (targetIndex: nat)
      requires invalidSlotNum == CountInvalid(slots) && |record| <= freeSpaceEndOffset <= data.Length
      modifies this, data
      ensures Value() == PageInsert(old(Value()), record, isBlob) && targetIndex == TargetSlot(old(Value()))
      ensures recordNum + invalidSlotNum - |slots| == old(recordNum + invalidSlotNum - |slots|)
    {
      ReuseFindsSlot(slots);
      targetIndex := |slots|;
      if invalidSlotNum != 0 {
        targetIndex := FindInvalid();
        invalidSlotNum := invalidSlotNum - 1;
      }
      recordNum := recordNum + 1;
      freeSpaceEndOffset := freeSpaceEndOffset - |record|;
      slots := SetSlot(slots, targetIndex, Slot(freeSpaceEndOffset, |record|, isBlob));
      WriteRecord(record);
    }

    /** memcpy of a record to the end of the free space. */
    method WriteRecord(record: seq<Byte>)
      requires 0 <= freeSpaceEndOffset && freeSpaceEndOffset + |record| <= data.Length
      modifies data
      ensures data[..] == old(data[..freeSpaceEndOffset] + record + data[freeSpaceEndOffset + |record|..])
    {
      forall i | 0 <= i < |record| {
        data[freeSpaceEndOffset + i] := record[i];
      }
    }

    method FindInvalid() returns (i: nat)
      requires CountInvalid(slots) != 0
      ensures i == FirstInvalid(slots) < |slots|
    {
      ReuseFindsSlot(slots);
      i := 0;
      while slots[i].offset != INVALID_OFFSET
        invariant i < |slots|
        invariant forall j :: 0 <= j < i ==> slots[j].offset != INVALID_OFFSET
        decreases |slots| - i
      {
        i := i + 1;
      }
    }
  }
}
