/**
 * Where a task's trailing fragments and a future's result storage sit, as
 * byte offsets from the start of the task on a 64-bit target. The fragments
 * follow the task header in a fixed order (child, group child, future) and
 * only the present ones take space.
 */
module TaskLayout {
  import opened TaskJob

  const PointerSize: nat := 8
  /** sizeof(Job): four pointer words. */
  const JobSize: nat := 4 * PointerSize
  /** sizeof(AsyncTask): fourteen pointer words. */
  const AsyncTaskSize: nat := 14 * PointerSize
  /** alignof(AsyncTask): two pointer words. */
  const AsyncTaskAlignment: nat := 2 * PointerSize
  /** sizeof(ChildFragment): the parent and the next child. */
  const ChildFragmentSize: nat := 2 * PointerSize
  /** sizeof(GroupChildFragment): the group. */
  const GroupChildFragmentSize: nat := PointerSize
  /** sizeof(FutureFragment): the wait queue, the result type and the error, before the trailing storage. */
  const FutureFragmentSize: nat := 3 * PointerSize

  // ==== Alignment arithmetic ---------------------------------------------------

  predicate IsPowerOfTwo(a: nat)
    decreases a
  {
    if a == 1 then true
    else if a < 2 || a % 2 != 0 then false
    else IsPowerOfTwo(a / 2)
  }

  /** `x & ~(a - 1)` for a power of two a: the low log2(a) bits of x cleared, one bit at a time. */
  function ClearLowBits(x: nat, a: nat): nat
    requires IsPowerOfTwo(a)
    decreases a
  {
    if a == 1 then x else 2 * ClearLowBits(x / 2, a / 2)
  }

  lemma MulMonotonic(a: nat, b: nat, d: nat)
    requires a <= b
    ensures a * d <= b * d
    decreases b - a
  {
    if a < b {
      MulMonotonic(a, b - 1, d);
      assert b * d == (b - 1) * d + d;
    }
  }

  /** Division by d has a unique quotient and remainder. */
  lemma ModOfDecomposition(x: nat, d: nat, q: nat, r: nat)
    requires 0 <= r < d && x == q * d + r
    ensures x / d == q && x % d == r
  {
    var q' := x / d;
    if q < q' {
      MulMonotonic(q + 1, q', d);
    } else if q' < q {
      MulMonotonic(q' + 1, q, d);
    }
  }

  /** Clearing the low bits rounds down to a multiple of a. */
  lemma {:induction false} ClearLowBitsRoundsDown(x: nat, a: nat)
    requires IsPowerOfTwo(a)
    ensures ClearLowBits(x, a) == x - x % a
    decreases a
  {
    if a != 1 {
      var b := a / 2;
      ClearLowBitsRoundsDown(x / 2, b);
      var q := (x / 2) / b;
      var r := (x / 2) % b;
      DoubleDecomposition(x, b, q, r);
      ModOfDecomposition(x, a, q, 2 * r + x % 2);
    }
  }

  /** Dividing x by 2b is dividing x / 2 by b, with x's low bit put back in the remainder. */
  lemma DoubleDecomposition(x: nat, b: nat, q: nat, r: nat)
    requires b > 0 && q == (x / 2) / b && r == (x / 2) % b
    ensures x == q * (2 * b) + (2 * r + x % 2) && 2 * r + x % 2 < 2 * b
  {
    assert x / 2 == q * b + r;
    assert q * (2 * b) == 2 * (q * b);
  }

  /** Taking away the remainder leaves a multiple. */
  lemma RoundDownIsMultiple(y: nat, a: nat)
    requires a > 0
    ensures (y - y % a) % a == 0
  {
    assert y - y % a == (y / a) * a;
    ModOfDecomposition(y - y % a, a, y / a, 0);
  }

  /** Rounding x up to the power of two a: the expression of storageOffset. */
  function AlignUp(x: nat, a: nat): (r: nat)
    requires IsPowerOfTwo(a)
    ensures r % a == 0 && x <= r < x + a
  {
    ClearLowBitsRoundsDown(x + a - 1, a);
    RoundDownIsMultiple(x + a - 1, a);
    ClearLowBits(x + a - 1, a)
  }

  /** Two different multiples of a are at least a apart. */
  lemma MultiplesAreApart(m: nat, r: nat, a: nat)
    requires a > 0 && m % a == 0 && r % a == 0 && m < r
    ensures m + a <= r
  {
    var qm := m / a;
    var qr := r / a;
    assert m == qm * a;
    assert r == qr * a;
    if qr <= qm {
      MulMonotonic(qr, qm, a);
    } else {
      MulMonotonic(qm + 1, qr, a);
      assert (qm + 1) * a == qm * a + a;
    }
  }

  /** A multiple of a multiple of a is a multiple of a. */
  lemma MultipleOfMultiple(x: nat, b: nat, a: nat)
    requires a > 0 && b > 0 && x % b == 0 && b % a == 0
    ensures x % a == 0
  {
    var k := x / b;
    var j := b / a;
    assert x == k * b;
    assert b == j * a;
    assert x == (k * j) * a;
    ModOfDecomposition(x, a, k * j, 0);
  }

  lemma SumOfMultiples(x: nat, y: nat, a: nat)
    requires a > 0 && x % a == 0 && y % a == 0
    ensures (x + y) % a == 0
  {
    var p := x / a;
    var q := y / a;
    assert x == p * a;
    assert y == q * a;
    assert x + y == (p + q) * a;
    ModOfDecomposition(x + y, a, p + q, 0);
  }

  /** AlignUp gives the smallest multiple of a that is at least x. */
  lemma AlignUpIsLeast(x: nat, a: nat, m: nat)
    requires IsPowerOfTwo(a) && m % a == 0 && x <= m
    ensures AlignUp(x, a) <= m
  {
    var r := AlignUp(x, a);
    if m < r {
      MultiplesAreApart(m, r, a);
    }
  }

  // ==== FutureFragment storage -------------------------------------------------

  /** What Task.h asks of the result type's value witnesses: its size and its (power-of-two) alignment. */
  datatype TypeLayout = TypeLayout(size: nat, alignment: nat)

  /** FutureFragment::storageOffset: the header size rounded up to the result type's alignment. */
  function StorageOffset(resultType: TypeLayout): (offset: nat)
    requires IsPowerOfTwo(resultType.alignment)
    ensures offset % resultType.alignment == 0
    ensures FutureFragmentSize <= offset < FutureFragmentSize + resultType.alignment
  {
    AlignUp(FutureFragmentSize, resultType.alignment)
  }

  /** FutureFragment::fragmentSize: the storage offset plus the result's size. */
  function FragmentSize(resultType: TypeLayout): (size: nat)
    requires IsPowerOfTwo(resultType.alignment)
    ensures size >= FutureFragmentSize + resultType.size
    ensures size - resultType.size == StorageOffset(resultType)
  {
    StorageOffset(resultType) + resultType.size
  }

  /** No smaller aligned offset leaves room for the fragment's header. */
  lemma StorageOffsetIsLeast(resultType: TypeLayout, m: nat)
    requires IsPowerOfTwo(resultType.alignment)
    requires m % resultType.alignment == 0 && FutureFragmentSize <= m
    ensures StorageOffset(resultType) <= m
  {
    AlignUpIsLeast(FutureFragmentSize, resultType.alignment, m);
  }

  // ==== Fragment offsets -------------------------------------------------------

  /** childFragment: right after the task header. */
  function ChildFragmentOffset(task: AsyncTask): (offset: nat)
    requires task.HasChildFragment()
    ensures offset == AsyncTaskSize + PrecedingFragmentsSize(task, ChildFrag)
  {
    AsyncTaskSize
  }

  /** groupChildFragment: after the task header and the child fragment, if present. */
  function GroupChildFragmentOffset(task: AsyncTask): (offset: nat)
    requires task.HasGroupChildFragment()
    ensures offset == AsyncTaskSize + PrecedingFragmentsSize(task, GroupChildFrag)
  {
    PrecedingSizes(task);
    var offset := AsyncTaskSize;
    if task.HasChildFragment() then offset + ChildFragmentSize else offset
  }

  /** futureFragment: after the task header and whichever of the other two fragments are present. */
  function FutureFragmentOffset(task: AsyncTask): (offset: nat)
    requires task.IsFuture()
    ensures offset == AsyncTaskSize + PrecedingFragmentsSize(task, FutureFrag)
    ensures offset % PointerSize == 0
  {
    PrecedingSizes(task);
    var offset := AsyncTaskSize;
    var offset := if task.HasChildFragment() then offset + ChildFragmentSize else offset;
    if task.HasGroupChildFragment() then offset + GroupChildFragmentSize else offset
  }

  /** The three fragments, in the order they follow the header. */
  datatype Fragment = ChildFrag | GroupChildFrag | FutureFrag

  const FragmentOrder: seq<Fragment> := [ChildFrag, GroupChildFrag, FutureFrag]

  function Rank(f: Fragment): (rank: nat)
    ensures rank < |FragmentOrder| && FragmentOrder[rank] == f
  {
    match f
    case ChildFrag => 0
    case GroupChildFrag => 1
    case FutureFrag => 2
  }

  /** The flag that says whether a task carries the fragment. */
  predicate HasFragment(task: AsyncTask, f: Fragment) {
    match f
    case ChildFrag => task.HasChildFragment()
    case GroupChildFrag => task.HasGroupChildFragment()
    case FutureFrag => task.IsFuture()
  }

  /** The size of a fragment that can precede another; the future fragment never does. */
  function FixedFragmentSize(f: Fragment): nat {
    match f
    case ChildFrag => ChildFragmentSize
    case GroupChildFrag => GroupChildFragmentSize
    case FutureFrag => 0
  }

  /** The total size of the present fragments among fs. */
  function PresentFragmentsSize(task: AsyncTask, fs: seq<Fragment>): nat {
    if fs == [] then 0
    else
      PresentFragmentsSize(task, fs[..|fs| - 1]) +
      (if HasFragment(task, fs[|fs| - 1]) then FixedFragmentSize(fs[|fs| - 1]) else 0)
  }

  /** The reference rule: a fragment sits after every present fragment that comes before it in the order. */
  function PrecedingFragmentsSize(task: AsyncTask, f: Fragment): nat {
    PresentFragmentsSize(task, FragmentOrder[..Rank(f)])
  }

  /** The reference rule, worked out for each fragment. */
  lemma PrecedingSizes(task: AsyncTask)
    ensures PrecedingFragmentsSize(task, ChildFrag) == 0
    ensures PrecedingFragmentsSize(task, GroupChildFrag)
            == if task.HasChildFragment() then ChildFragmentSize else 0
    ensures PrecedingFragmentsSize(task, FutureFrag)
            == (if task.HasChildFragment() then ChildFragmentSize else 0)
               + (if task.HasGroupChildFragment() then GroupChildFragmentSize else 0)
  {
    assert FragmentOrder[..2][..1] == FragmentOrder[..1];
    assert FragmentOrder[..1][..0] == FragmentOrder[..0];
  }

  /** The accessor for a fragment, by its kind. */
  function FragmentOffset(task: AsyncTask, f: Fragment): (offset: nat)
    requires HasFragment(task, f)
    ensures offset == AsyncTaskSize + PrecedingFragmentsSize(task, f)
  {
    match f
    case ChildFrag => ChildFragmentOffset(task)
    case GroupChildFrag => GroupChildFragmentOffset(task)
    case FutureFrag => FutureFragmentOffset(task)
  }

  /** Taking in more of the order never shrinks the total, and a present fragment adds its whole size. */
  lemma {:induction false} PresentFragmentsSizeGrows(task: AsyncTask, i: nat, j: nat)
    requires i < j <= |FragmentOrder|
    ensures PresentFragmentsSize(task, FragmentOrder[..i]) +
            (if HasFragment(task, FragmentOrder[i]) then FixedFragmentSize(FragmentOrder[i]) else 0)
            <= PresentFragmentsSize(task, FragmentOrder[..j])
    decreases j
  {
    assert FragmentOrder[..j][..j - 1] == FragmentOrder[..j - 1];
    if i < j - 1 {
      PresentFragmentsSizeGrows(task, i, j - 1);
    }
  }

  /** Present fragments lie after the header, in the fixed order, and never overlap. */
  lemma FragmentsAreOrderedAndDisjoint(task: AsyncTask, f: Fragment, g: Fragment)
    requires HasFragment(task, f) && HasFragment(task, g)
    requires Rank(f) < Rank(g)
    ensures AsyncTaskSize <= FragmentOffset(task, f)
    ensures FragmentOffset(task, f) + FixedFragmentSize(f) <= FragmentOffset(task, g)
  {
    PresentFragmentsSizeGrows(task, Rank(f), Rank(g));
  }

  // ==== Result storage, relative to the task -----------------------------------

  /** Where getStoragePtr points, from the start of the task: the future fragment's offset plus storageOffset. */
  function AsWrittenStorageOffsetInTask(task: AsyncTask, resultType: TypeLayout): (offset: nat)
    requires task.IsFuture() && IsPowerOfTwo(resultType.alignment)
    ensures offset >= FutureFragmentOffset(task) + FutureFragmentSize
  {
    FutureFragmentOffset(task) + StorageOffset(resultType)
  }

  /** Result types aligned to at most a pointer word are stored aligned, because every fragment offset is a multiple of 8. */
  lemma AsWrittenStorageAlignedForSmallAlignment(task: AsyncTask, resultType: TypeLayout)
    requires task.IsFuture() && IsPowerOfTwo(resultType.alignment)
    requires PointerSize % resultType.alignment == 0
    ensures AsWrittenStorageOffsetInTask(task, resultType) % resultType.alignment == 0
  {
    var a := resultType.alignment;
    MultipleOfMultiple(FutureFragmentOffset(task), PointerSize, a);
    SumOfMultiples(FutureFragmentOffset(task), StorageOffset(resultType), a);
  }

  /**
   * The storage is aligned relative to the future fragment, not to the task:
   * behind a child and a group-child fragment the future fragment starts at
   * 136, which is 8 mod 16, so a result type aligned to 16 is stored at 8 mod
   * 16 from a task that is itself aligned to 16.
   */
  lemma AsWrittenStorageIsMisaligned()
    ensures var task := NewAsyncTask(JobFlags(0, true, true, true, true), 0, 0);
            var resultType := TypeLayout(16, 16);
            && resultType.alignment <= AsyncTaskAlignment
            && FutureFragmentOffset(task) == 136
            && AsWrittenStorageOffsetInTask(task, resultType) == 168
            && AsWrittenStorageOffsetInTask(task, resultType) % resultType.alignment == 8
  {
    var resultType := TypeLayout(16, 16);
    assert IsPowerOfTwo(16) by {
      assert IsPowerOfTwo(8) by { assert IsPowerOfTwo(4) by { assert IsPowerOfTwo(2); } }
    }
    assert StorageOffset(resultType) == 32;
  }

  /** A power of two divides every power of two at least as large. */
  lemma {:induction false} PowerOfTwoDivides(a: nat, m: nat)
    requires IsPowerOfTwo(a) && IsPowerOfTwo(m) && a <= m
    ensures m % a == 0
    decreases a
  {
    if a != 1 {
      PowerOfTwoDivides(a / 2, m / 2);
      var k := (m / 2) / (a / 2);
      assert m / 2 == k * (a / 2);
      assert m == k * a;
      ModOfDecomposition(m, a, k, 0);
    }
  }

  /**
   * For result types aligned no more than the task itself, the storage
   * aligned within the task ends no later than the fragment fragmentSize
   * sizes: the storage moves by at most the slack storageOffset leaves.
   */
  lemma AlignedStorageFitsFragment(fragmentOffset: nat, resultType: TypeLayout)
    requires fragmentOffset % PointerSize == 0 && IsPowerOfTwo(resultType.alignment)
    ensures resultType.alignment <= AsyncTaskAlignment ==>
              AlignUp(fragmentOffset + FutureFragmentSize, resultType.alignment) + resultType.size
              <= fragmentOffset + FragmentSize(resultType)
  {
    var a := resultType.alignment;
    var f := fragmentOffset;
    var s := StorageOffset(resultType);
    assert IsPowerOfTwo(8) by { assert IsPowerOfTwo(4) by { assert IsPowerOfTwo(2); } }
    assert IsPowerOfTwo(16);
    if a <= PointerSize {
      PowerOfTwoDivides(a, PointerSize);
      MultipleOfMultiple(f, PointerSize, a);
      SumOfMultiples(f, s, a);
      AlignUpIsLeast(f + FutureFragmentSize, a, f + s);
    } else if a <= AsyncTaskAlignment {
      PowerOfTwoDivides(a, AsyncTaskAlignment);
      if a < AsyncTaskAlignment {
        ModOfDecomposition(AsyncTaskAlignment, a, 1, AsyncTaskAlignment - a);
      }
      var k := f / PointerSize;
      var j := if k % 2 == 1 then (k + 3) / 2 else (k + 4) / 2;
      var m := if k % 2 == 1 then f + 24 else f + 32;
      assert m == j * 16;
      ModOfDecomposition(m, 16, j, 0);
      AlignUpIsLeast(f + FutureFragmentSize, a, m);
      MultiplesAreApart(16, s, 16);
    }
  }

  /**
   * The storage offset from the start of the task, rounded up so that the
   * storage itself is aligned within the task, past the fragment's header.
   * For result types aligned no more than the task, it still fits in the
   * fragment fragmentSize sizes.
   */
  function StorageOffsetInTask(task: AsyncTask, resultType: TypeLayout): (offset: nat)
    requires task.IsFuture() && IsPowerOfTwo(resultType.alignment)
    ensures offset % resultType.alignment == 0
    ensures FutureFragmentOffset(task) + FutureFragmentSize <= offset
    ensures offset < FutureFragmentOffset(task) + FutureFragmentSize + resultType.alignment
    ensures resultType.alignment <= AsyncTaskAlignment ==>
              offset + resultType.size <= FutureFragmentOffset(task) + FragmentSize(resultType)
  {
    AlignedStorageFitsFragment(FutureFragmentOffset(task), resultType);
    AlignUp(FutureFragmentOffset(task) + FutureFragmentSize, resultType.alignment)
  }

  /**
   * The address of a future's result storage, from the address of its task:
   * a task aligned to the result's alignment stores the result aligned.
   */
  function StorageAddress(taskAddress: nat, task: AsyncTask, resultType: TypeLayout): (address: nat)
    requires task.IsFuture() && IsPowerOfTwo(resultType.alignment)
    requires taskAddress % resultType.alignment == 0
    ensures address % resultType.alignment == 0
    ensures taskAddress + FutureFragmentOffset(task) + FutureFragmentSize <= address
  {
    SumOfMultiples(taskAddress, StorageOffsetInTask(task, resultType), resultType.alignment);
    taskAddress + StorageOffsetInTask(task, resultType)
  }

  /** The corrected storage offset is the smallest aligned offset past the fragment's header. */
  lemma StorageOffsetInTaskIsLeast(task: AsyncTask, resultType: TypeLayout, m: nat)
    requires task.IsFuture() && IsPowerOfTwo(resultType.alignment)
    requires m % resultType.alignment == 0 && FutureFragmentOffset(task) + FutureFragmentSize <= m
    ensures StorageOffsetInTask(task, resultType) <= m
  {
    AlignUpIsLeast(FutureFragmentOffset(task) + FutureFragmentSize, resultType.alignment, m);
  }

  /** Where the two agree: for alignments up to a pointer word the corrected rule is the rule as written. */
  lemma StorageOffsetInTaskAgreesForSmallAlignment(task: AsyncTask, resultType: TypeLayout)
    requires task.IsFuture() && IsPowerOfTwo(resultType.alignment)
    requires PointerSize % resultType.alignment == 0
    ensures StorageOffsetInTask(task, resultType) == AsWrittenStorageOffsetInTask(task, resultType)
  {
    var written := AsWrittenStorageOffsetInTask(task, resultType);
    var corrected := StorageOffsetInTask(task, resultType);
    AsWrittenStorageAlignedForSmallAlignment(task, resultType);
    StorageOffsetInTaskIsLeast(task, resultType, written);
    if corrected < written {
      MultiplesAreApart(corrected, written, resultType.alignment);
    }
  }
}
