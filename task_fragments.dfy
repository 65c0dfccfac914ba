/**
 * The trailing fragments of a task as objects: the child fragment, whose
 * sibling link the parent updates, the group-child fragment, and the future
 * fragment with its one-shot status and its queue of waiting tasks.
 *
 * Atomic access is not modelled: every operation here is one sequential step.
 */
module TaskFragments {
  import opened Optional
  import opened TaskWords
  import opened TaskLayout

  /** AsyncTask::ChildFragment. */
  class ChildFragment {
    /** The parent task of this task. */
    const parent: Word
    /** The next task in the parent's list of children. */
    var nextChild: Word

    constructor (parent: Word)
      ensures this.parent == parent && nextChild == NullPointer
    {
      this.parent := parent;
      nextChild := NullPointer;
    }

    function GetParent(): Word { parent }

    function GetNextChild(): Word
      reads this
    {
      nextChild
    }

    /** setNextChild: the link becomes the task; the parent, a constant, stays. */
    method SetNextChild(task: Word)
      modifies this
      ensures GetNextChild() == task
    {
      nextChild := task;
    }
  }

  /** AsyncTask::GroupChildFragment: the group the task offers itself to when it completes. */
  class GroupChildFragment {
    /** The group, fixed when the fragment is built. */
    const group: Word

    constructor (group: Word)
      ensures GetGroup() == group
    {
      this.group := group;
    }

    function GetGroup(): Word { group }
  }

  // ==== The future status --------------------------------------------------------

  /** Success and Error are final. */
  predicate IsTerminal(status: FutureStatus) {
    status != Executing
  }

  /** The only change a future's status may make: from Executing to a final status. */
  predicate CanTransition(from: FutureStatus, to: FutureStatus) {
    from == Executing && IsTerminal(to)
  }

  /** The statuses a future has gone through, one per step: it begins Executing and each step keeps or transitions. */
  predicate ValidHistory(history: seq<FutureStatus>) {
    && history != []
    && history[0] == Executing
    && forall i :: 0 < i < |history| ==>
         history[i] == history[i - 1] || CanTransition(history[i - 1], history[i])
  }

  /** Once a future's status is final it never changes again. */
  lemma {:induction false} TerminalStatusIsFinal(history: seq<FutureStatus>, i: nat, j: nat)
    requires ValidHistory(history)
    requires i <= j < |history| && IsTerminal(history[i])
    ensures history[j] == history[i]
    decreases j - i
  {
    if i < j {
      TerminalStatusIsFinal(history, i, j - 1);
      assert history[j] == history[j - 1] || CanTransition(history[j - 1], history[j]);
    }
  }

  /** A future's status changes at most once: after any change there is no other. */
  lemma AtMostOneStatusChange(history: seq<FutureStatus>, i: nat, j: nat)
    requires ValidHistory(history)
    requires 0 < i < j < |history| && history[i] != history[i - 1]
    ensures history[j] == history[j - 1]
  {
    assert IsTerminal(history[i]);
    TerminalStatusIsFinal(history, i, j - 1);
    TerminalStatusIsFinal(history, i, j);
  }

  /** Extending a history by one allowed step keeps it valid. */
  lemma StepKeepsHistoryValid(history: seq<FutureStatus>, next: FutureStatus)
    requires ValidHistory(history)
    requires next == history[|history| - 1] || CanTransition(history[|history| - 1], next)
    ensures ValidHistory(history + [next])
  {
    var h := history + [next];
    forall i | 0 < i < |h|
      ensures h[i] == h[i - 1] || CanTransition(h[i - 1], h[i])
    {
      if i < |history| {
        assert h[i] == history[i] && h[i - 1] == history[i - 1];
      }
    }
  }

  /** The head of a list of waiting tasks, as the wait queue stores it. */
  function Head(waiters: seq<Word>): Word {
    if waiters == [] then NullPointer else waiters[0]
  }

  /**
   * AsyncTask::FutureFragment. The wait queue word holds the status and the
   * first waiting task; the rest of the list runs through the waiting tasks'
   * own link words and is kept here as the sequence waiters.
   */
  class FutureFragment {
    var waitQueue: WaitQueueItem
    const resultType: TypeLayout
    var error: Word
    /** The tasks waiting for the future, first the most recent. */
    ghost var waiters: seq<Word>
    /** Every status the future has had, the current one last. */
    ghost var history: seq<FutureStatus>

    /**
     * The wait queue names a status, which is the last of a valid history,
     * and its task part is the first waiting task. Only an executing future
     * has waiters.
     */
    ghost predicate Valid()
      reads this
    {
      && ValidHistory(history)
      && waitQueue.GetStatus() == Some(history[|history| - 1])
      && waitQueue.GetTask() == Head(waiters)
      && (forall k :: 0 <= k < |waiters| ==> waiters[k] != NullPointer && LowBitsClear(waiters[k]))
      && (IsTerminal(history[|history| - 1]) ==> waiters == [])
    }

    /** The constructor: executing, nobody waiting, no error. */
    constructor (resultType: TypeLayout)
      ensures Valid() && this.resultType == resultType
      ensures waitQueue == GetItem(Executing, NullPointer) && error == NullPointer
      ensures history == [Executing] && waiters == []
    {
      waitQueue := GetItem(Executing, NullPointer);
      this.resultType := resultType;
      error := NullPointer;
      waiters := [];
      history := [Executing];
    }

    function GetResultType(): TypeLayout { resultType }

    /** The current status, read off the wait queue. */
    function Status(): (status: FutureStatus)
      requires Valid()
      reads this
      ensures status == history[|history| - 1]
    {
      waitQueue.GetStatus().value
    }

    /**
     * waitFuture, sequentially: an executing future puts the waiting task at
     * the head of its queue and answers Executing; a completed one answers
     * its final status and changes nothing.
     */
    method WaitFuture(waitingTask: Word) returns (status: FutureStatus)
      requires Valid()
      requires waitingTask != NullPointer && LowBitsClear(waitingTask)
      modifies this
      ensures Valid() && status == old(Status())
      ensures history == old(history) + [status]
      ensures status == Executing ==> waiters == [waitingTask] + old(waiters)
      ensures status != Executing ==> waitQueue == old(waitQueue) && waiters == old(waiters)
      ensures error == old(error)
    {
      status := waitQueue.GetStatus().value;
      StepKeepsHistoryValid(history, status);
      history := history + [status];
      if status == Executing {
        waitQueue := GetItem(Executing, waitingTask);
        waiters := [waitingTask] + waiters;
      }
    }

    /**
     * completeFuture, sequentially: the status makes its one change, from
     * Executing to the outcome, the queue is emptied, and the tasks that
     * were waiting are handed back to be scheduled, first the most recent.
     */
    method CompleteFuture(outcome: FutureStatus, failure: Word) returns (woken: Word)
      requires Valid() && Status() == Executing && IsTerminal(outcome)
      modifies this
      ensures Valid() && Status() == outcome
      ensures history == old(history) + [outcome]
      ensures woken == Head(old(waiters)) && waiters == []
      ensures waitQueue == GetItem(outcome, NullPointer)
      ensures error == (if outcome == Error then failure else old(error))
    {
      woken := waitQueue.GetTask();
      StepKeepsHistoryValid(history, outcome);
      history := history + [outcome];
      if outcome == Error {
        error := failure;
      }
      waitQueue := GetItem(outcome, NullPointer);
      waiters := [];
    }
  }
}
