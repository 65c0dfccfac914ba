/**
 * Schedulable jobs and the task header: the two Job constructors, the
 * AsyncTask constructor and the choice runInFullyEstablishedContext makes
 * between resuming a task and running a plain job.
 *
 * Function pointers, executors and contexts are opaque addresses: the model
 * records which function is called with which arguments, not what it does.
 */
module TaskJob {
  import opened TaskWords

  /** The address of a JobInvokeFunction or a TaskContinuationFunction. */
  type FunctionRef = Word
  /** An ExecutorRef, opaque here. */
  type ExecutorRef = Word
  /** The address of an AsyncContext. */
  type ContextRef = Word

  /** The job flags Task.h consults: the priority, whether the job is a task, and which fragments a task carries. */
  datatype JobFlags = JobFlags(priority: nat, isAsyncTask: bool, isChildTask: bool,
                               isGroupChildTask: bool, isFuture: bool)

  /**
   * A job header. RunJob and ResumeTask share one word (a union), so the
   * header holds a single function address; isAsyncTask says which of the two
   * it is.
   */
  datatype Job = Job(flags: JobFlags, entry: FunctionRef) {
    predicate IsAsyncTask() { flags.isAsyncTask }

    function GetPriority(): nat { flags.priority }
  }

  /** The call a job's dispatch makes. */
  datatype Invocation =
    | RunJobCall(runJob: FunctionRef, job: Job, executor: ExecutorRef)
    | ResumeTaskCall(resumeTask: FunctionRef, task: AsyncTask, executor: ExecutorRef, context: ContextRef)

  /** Job(flags, JobInvokeFunction*): a plain job; the flags must not say it is a task. */
  function NewJob(flags: JobFlags, invoke: FunctionRef): (job: Job)
    requires !flags.isAsyncTask
    ensures !job.IsAsyncTask() && job.GetPriority() == flags.priority
    ensures job.flags == flags && job.entry == invoke
  {
    Job(flags, invoke)
  }

  /** Job(flags, TaskContinuationFunction*): a task's header; the flags must say it is a task. */
  function NewTaskJob(flags: JobFlags, resume: FunctionRef): (job: Job)
    requires flags.isAsyncTask
    ensures job.IsAsyncTask() && job.GetPriority() == flags.priority
    ensures job.flags == flags && job.entry == resume
  {
    Job(flags, resume)
  }

  /** runSimpleInFullyEstablishedContext: call RunJob with the job itself and the executor. */
  function RunSimpleInFullyEstablishedContext(job: Job, currentExecutor: ExecutorRef): (call: Invocation)
    ensures call.RunJobCall? && call.runJob == job.entry
    ensures call.job == job && call.executor == currentExecutor
  {
    RunJobCall(job.entry, job, currentExecutor)
  }

  /**
   * An async task: its job header, the context it resumes with and its active
   * status. The heap object header, the allocator's private words and the
   * task-local storage are not part of this model.
   */
  datatype AsyncTask = AsyncTask(job: Job, resumeContext: ContextRef, status: ActiveTaskStatus) {
    /** isCancelled: the cancelled bit of the status word. */
    predicate IsCancelled() { status.IsCancelled() }

    predicate HasChildFragment() { job.flags.isChildTask }

    predicate HasGroupChildFragment() { job.flags.isGroupChildTask }

    predicate IsFuture() { job.flags.isFuture }
  }

  /** The AsyncTask constructor: a task header resuming with the given function and context, in the default status. */
  function NewAsyncTask(flags: JobFlags, run: FunctionRef, initialContext: ContextRef): (task: AsyncTask)
    requires flags.isAsyncTask
    ensures task.job == NewTaskJob(flags, run) && task.resumeContext == initialContext
    ensures task.status == InitialStatus() && !task.IsCancelled()
    ensures task.status.InnermostRecord() == NullPointer && !task.status.IsLocked()
  {
    AsyncTask(NewTaskJob(flags, run), initialContext, InitialStatus())
  }

  /** isCancelled reads back the cancelled flag the task's status word was built with. */
  lemma TaskIsCancelledByItsStatus(flags: JobFlags, run: FunctionRef, context: ContextRef,
                                   record: Word, cancelled: bool, locked: bool)
    requires flags.isAsyncTask && LowBitsClear(record)
    ensures NewAsyncTask(flags, run, context).(status := MakeStatus(record, cancelled, locked)).IsCancelled()
            == cancelled
  {
  }

  /** Each fragment is present exactly when the flags the task was built with say so. */
  lemma TaskFragmentsFollowItsFlags(flags: JobFlags, run: FunctionRef, context: ContextRef)
    requires flags.isAsyncTask
    ensures var task := NewAsyncTask(flags, run, context);
            && task.HasChildFragment() == flags.isChildTask
            && task.HasGroupChildFragment() == flags.isGroupChildTask
            && task.IsFuture() == flags.isFuture
  {
  }

  /** AsyncTask::runInFullyEstablishedContext: call ResumeTask with the task, the executor and the task's context. */
  function RunTaskInFullyEstablishedContext(task: AsyncTask, currentExecutor: ExecutorRef): (call: Invocation)
    ensures call.ResumeTaskCall? && call.resumeTask == task.job.entry
    ensures call.task == task && call.executor == currentExecutor && call.context == task.resumeContext
  {
    ResumeTaskCall(task.job.entry, task, currentExecutor, task.resumeContext)
  }

  /**
   * What a Job pointer may point at: a plain job, or the header of a task.
   * The dispatch does not look at which one it is, only at the flags.
   */
  datatype JobObject = PlainJob(job: Job) | TaskObject(task: AsyncTask) {
    function Header(): Job {
      if PlainJob? then job else task.job
    }

    /** The header's flags tell the truth about the object: what the two Job constructors guarantee. */
    predicate Valid() {
      Header().IsAsyncTask() <==> TaskObject?
    }
  }

  /**
   * Job::runInFullyEstablishedContext: dyn_cast<AsyncTask> tests the flag, so a
   * task is resumed and any other job is run.
   */
  function RunInFullyEstablishedContext(obj: JobObject, currentExecutor: ExecutorRef): (call: Invocation)
    requires obj.Valid()
    ensures call.ResumeTaskCall? <==> obj.Header().IsAsyncTask()
    ensures call.RunJobCall? ==> call.runJob == obj.Header().entry && call.job == obj.Header()
    ensures call.ResumeTaskCall? ==> call.resumeTask == obj.Header().entry && call.task == obj.task
                                     && call.context == obj.task.resumeContext
    ensures call.executor == currentExecutor
  {
    if obj.Header().IsAsyncTask() then RunTaskInFullyEstablishedContext(obj.task, currentExecutor)
    else RunSimpleInFullyEstablishedContext(obj.job, currentExecutor)
  }

  /** Every job built by NewJob is a valid job object, and its dispatch runs the invoke function it was built with. */
  lemma PlainJobRunsItsInvokeFunction(flags: JobFlags, invoke: FunctionRef, executor: ExecutorRef)
    requires !flags.isAsyncTask
    ensures PlainJob(NewJob(flags, invoke)).Valid()
    ensures RunInFullyEstablishedContext(PlainJob(NewJob(flags, invoke)), executor)
            == RunJobCall(invoke, NewJob(flags, invoke), executor)
  {
  }

  /** Every task built by NewAsyncTask is a valid job object, and its dispatch resumes it with its function and context. */
  lemma TaskResumesWithItsContinuation(flags: JobFlags, run: FunctionRef, initialContext: ContextRef,
                                       executor: ExecutorRef)
    requires flags.isAsyncTask
    ensures TaskObject(NewAsyncTask(flags, run, initialContext)).Valid()
    ensures RunInFullyEstablishedContext(TaskObject(NewAsyncTask(flags, run, initialContext)), executor)
            == ResumeTaskCall(run, NewAsyncTask(flags, run, initialContext), executor, initialContext)
  {
  }
}
