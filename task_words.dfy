/**
 * The two tagged machine words of the task ABI (a 64-bit target): the active
 * task status, which packs a cancelled bit and a locked bit under the pointer
 * to the innermost status record, and a future's wait queue item, which packs
 * the future's status under the pointer to the first waiting task.
 *
 * Pointers are words whose two low bits are clear, so the tags fit beside them.
 */
module TaskWords {
  import opened Optional

  /** A uintptr_t. */
  type Word = bv64

  const NullPointer: Word := 0

  /** The two low bits, where the tags go. */
  const TagMask: Word := 0x03

  /** A record or task pointer: at least 4-byte aligned, so its two low bits are free. */
  predicate LowBitsClear(p: Word) {
    p & TagMask == 0
  }

  /** Or-ing a tag below 4 into a pointer with clear low bits leaves the tag in the low bits ... */
  lemma TagInLowBits(p: Word, tag: Word)
    requires tag < 4
    ensures LowBitsClear(p) ==> (p | tag) & StatusMask == tag
  {
  }

  /** ... and the pointer in the others. */
  lemma PointerInHighBits(p: Word, tag: Word)
    requires tag < 4
    ensures LowBitsClear(p) ==> (p | tag) & !StatusMask == p
  {
  }

  // ==== ActiveTaskStatus -----------------------------------------------------

  /** The enumerators IsCancelled, IsLocked and RecordMask. */
  const CancelledBit: Word := 0x1
  const LockedBit: Word := 0x2
  const RecordMask: Word := !(CancelledBit | LockedBit)

  /** The current state of a task's status records, as one word. */
  datatype ActiveTaskStatus = ActiveTaskStatus(value: Word) {
    predicate IsCancelled() { value & CancelledBit != 0 }

    predicate IsLocked() { value & LockedBit != 0 }

    function InnermostRecord(): Word { value & RecordMask }
  }

  /** A tag added to a pointer with clear low bits leaves the pointer in the record bits ... */
  lemma RecordOfTagged(p: Word, tag: Word)
    requires tag < 4
    ensures LowBitsClear(p) ==> (p + tag) & RecordMask == p
  {
  }

  /** ... and its own cancelled bit ... */
  lemma CancelledOfTagged(p: Word, tag: Word)
    requires tag < 4
    ensures LowBitsClear(p) ==> ((p + tag) & CancelledBit != 0) == (tag & CancelledBit != 0)
  {
  }

  /** ... and its own locked bit. */
  lemma LockedOfTagged(p: Word, tag: Word)
    requires tag < 4
    ensures LowBitsClear(p) ==> ((p + tag) & LockedBit != 0) == (tag & LockedBit != 0)
  {
  }

  /** The default status: no record, not cancelled, not locked. */
  function InitialStatus(): (status: ActiveTaskStatus)
    ensures status.InnermostRecord() == NullPointer
    ensures !status.IsCancelled() && !status.IsLocked()
  {
    ActiveTaskStatus(0)
  }

  /** The tag the two flags make: the locked bit plus the cancelled bit. */
  function FlagTag(cancelled: bool, locked: bool): (tag: Word)
    ensures tag < 4
    ensures (tag & CancelledBit != 0) == cancelled && (tag & LockedBit != 0) == locked
  {
    (if locked then LockedBit else 0) + (if cancelled then CancelledBit else 0)
  }

  /** The status built from a record pointer and the two flags: decoding gives them back. */
  function MakeStatus(innermostRecord: Word, cancelled: bool, locked: bool): (status: ActiveTaskStatus)
    ensures LowBitsClear(innermostRecord) ==>
              && status.InnermostRecord() == innermostRecord
              && status.IsCancelled() == cancelled
              && status.IsLocked() == locked
  {
    var tag := FlagTag(cancelled, locked);
    var status := ActiveTaskStatus(innermostRecord + tag);
    assert LowBitsClear(innermostRecord) ==> status.InnermostRecord() == innermostRecord by {
      RecordOfTagged(innermostRecord, tag);
    }
    assert LowBitsClear(innermostRecord) ==> status.IsCancelled() == cancelled by {
      CancelledOfTagged(innermostRecord, tag);
    }
    assert LowBitsClear(innermostRecord) ==> status.IsLocked() == locked by {
      LockedOfTagged(innermostRecord, tag);
    }
    status
  }

  /** The record bits of any word form an aligned pointer. */
  lemma RecordIsAligned(w: Word)
    ensures LowBitsClear(w & RecordMask)
  {
  }

  /** A word is its record bits plus its two flag bits. */
  lemma WordIsRecordPlusFlags(w: Word)
    ensures (w & RecordMask) + FlagTag(w & CancelledBit != 0, w & LockedBit != 0) == w
  {
  }

  /** Conversely, every status word is the one built from what it decodes to. */
  lemma StatusIsItsFields(status: ActiveTaskStatus)
    ensures LowBitsClear(status.InnermostRecord())
    ensures MakeStatus(status.InnermostRecord(), status.IsCancelled(), status.IsLocked()) == status
  {
    var w := status.value;
    assert LowBitsClear(status.InnermostRecord()) by { RecordIsAligned(w); }
    assert MakeStatus(w & RecordMask, w & CancelledBit != 0, w & LockedBit != 0).value == w by {
      WordIsRecordPlusFlags(w);
    }
  }

  /** A record pointer with a low bit set is not decoded back: the tag addition carries into the flags. */
  lemma MisalignedRecordIsNotRecovered()
    ensures MakeStatus(0x1, true, false).IsLocked()
    ensures !MakeStatus(0x1, true, false).IsCancelled()
    ensures MakeStatus(0x1, true, false).InnermostRecord() != 0x1
  {
  }

  // ==== FutureFragment::WaitQueueItem ----------------------------------------

  /** FutureFragment::Status. */
  datatype FutureStatus = Executing | Success | Error

  function StatusCode(status: FutureStatus): (code: Word)
    ensures code < 3
  {
    match status
    case Executing => 0
    case Success => 1
    case Error => 2
  }

  /** WaitQueueItem::statusMask. */
  const StatusMask: Word := 0x03

  /** The future's status in the low two bits, the first waiting task in the rest. */
  datatype WaitQueueItem = WaitQueueItem(storage: Word) {
    /** The status in the low bits; the code 3 names no status. */
    function GetStatus(): Option<FutureStatus> {
      var code := storage & StatusMask;
      if code == 0 then Some(Executing)
      else if code == 1 then Some(Success)
      else if code == 2 then Some(Error)
      else None
    }

    function GetTask(): Word { storage & !StatusMask }
  }

  /** The item built from a status and a task pointer: decoding gives them back. */
  function GetItem(status: FutureStatus, task: Word): (item: WaitQueueItem)
    ensures LowBitsClear(task) ==> item.GetStatus() == Some(status) && item.GetTask() == task
  {
    var item := WaitQueueItem(task | StatusCode(status));
    assert LowBitsClear(task) ==> item.GetStatus() == Some(status) by {
      TagInLowBits(task, StatusCode(status));
    }
    assert LowBitsClear(task) ==> item.GetTask() == task by {
      PointerInHighBits(task, StatusCode(status));
    }
    item
  }

  /** The code of the status an item names is its low bits. */
  lemma CodeOfNamedStatus(item: WaitQueueItem)
    requires item.GetStatus().Some?
    ensures StatusCode(item.GetStatus().value) == item.storage & StatusMask
  {
  }

  /** A word is its task bits or-ed with its status bits. */
  lemma WordIsTaskOrStatus(w: Word)
    ensures (w & !StatusMask) | (w & StatusMask) == w
  {
  }

  /** The task bits of any word form an aligned pointer. */
  lemma TaskIsAligned(w: Word)
    ensures LowBitsClear(w & !StatusMask)
  {
  }

  /** Conversely, every item that names a status is the one built from what it decodes to. */
  lemma ItemIsItsFields(item: WaitQueueItem)
    requires item.GetStatus().Some?
    ensures LowBitsClear(item.GetTask())
    ensures GetItem(item.GetStatus().value, item.GetTask()) == item
  {
    TaskIsAligned(item.storage);
    CodeOfNamedStatus(item);
    WordIsTaskOrStatus(item.storage);
  }
}
