# Raw syntax nodes, the syntax tree creator and the task ABI words, in Dafny

This project models three small pieces of the Swift compiler and runtime:

- **The raw syntax tree** (`include/swift/Syntax/RawSyntax.h`).
  - A `RawNode` is either a token or a layout node.
    - A token carries its kind, text, leading and trailing trivia, presence and text length.
    - A layout node carries its kind, an ordered list of possibly-null children, a text length and a cached count of the nodes below it.
  - The constructors and factories (`make`, `makeAndCalcLength`, `missing`, `withLeadingTrivia`, `withTrailingTrivia`) are methods of the class `NodeFactory`.
    - The class owns the global `NextFreeNodeId` counter, which each of these calls may advance.
  - The getters are functions on the `RawNode` datatype (module `RawSyntax`).
  - `computeTextLength` is a method with a loop.
- **The tree builder used by the parser** (`lib/SyntaxParse/SyntaxTreeCreator.cpp`).
  - `recordToken` cuts a byte range of the arena's copy of the source buffer into leading trivia, token text and trailing trivia.
  - `recordMissingToken` and `recordRawSyntax` build nodes through the factory.
  - `lookupNode` consults the incremental-parse cache.
  - All of this lives in the class `SyntaxTreeCreator` (module `SyntaxParse`).
- **The encodings and layout rules of the task ABI** (`include/swift/ABI/Task.h`).
  - Two 64-bit tagged words, modelled as `bv64` (module `TaskWords`):
    - the active task status, which holds a record pointer with a cancelled bit and a locked bit;
    - a future's wait queue item, which holds a task pointer with a two-bit status.
  - The Job and AsyncTask constructors, and the dispatch of `runInFullyEstablishedContext` (module `TaskJob`).
  - The byte offsets of the trailing fragments (child, then group child, then future) and of the future's result storage (module `TaskLayout`).
    - `x & ~(a - 1)` is defined bit by bit and proved to round down to a multiple of `a`.
  - The child fragment and the future fragment as classes (module `TaskFragments`):
    - the child fragment's sibling link is a mutable field;
    - the future's status is one-shot, with its waiting tasks.

Pointers in the task ABI are machine words whose two low bits are clear.

Executors, function pointers and contexts are opaque words: the model records which stored function a dispatch calls, and with what arguments.

## Model

| member | source | states |
|---|---|---|
| RawSyntax.TokensHaveNoChildren | include/swift/Syntax/RawSyntax.h:404-414 | a token has no children, an empty layout, no sub-nodes, and counts as one node |
| RawSyntax.KindIsTokenExactlyForTokens | include/swift/Syntax/RawSyntax.h:394-400 | for a well-formed node, getKind answers Token exactly when the node is a token (the layout constructor refuses Token) |
| RawSyntax.ChildIsLayoutElement | include/swift/Syntax/RawSyntax.h:514-531 | a layout node has as many children as the layout it was built with, and getChild(i) is the i-th element of that layout |
| RawSyntax.TotalNodesCountsTree | include/swift/Syntax/RawSyntax.h:402-414 | for a well-formed node, getTotalNodes equals the number of nodes in the subtree, counted by walking it |
| RawSyntax.SubNodesCountLayout | include/swift/Syntax/RawSyntax.h:234-242 | the sub-node count over the first k children equals the size of their subtrees; null children count nothing |
| RawSyntax.PresentLengthIsChildrenLength | include/swift/Syntax/RawSyntax.h:302-311 | when every child keeps the header's rule that a missing node has length 0, skipping missing children, as computeTextLength does, gives the plain sum of the children's lengths |
| RawSyntax.CachedLengthIsComputedLength | include/swift/Syntax/RawSyntax.h:175-176 | for a layout node whose length makeAndCalcLength computed over children that keep the rule, computeTextLength finds the same length |
| RawSyntax.MissingTokenIsEmpty | include/swift/Syntax/RawSyntax.h:272-273 | a well-formed missing token has text length 0 |
| RawSyntax.ComputeTextLength | include/swift/Syntax/RawSyntax.h:302-311 | the result is the sum of the text lengths of the non-null, non-missing children |
| RawSyntaxFactory.CounterAfter | include/swift/Syntax/RawSyntax.h:244-249 | the id counter never decreases and ends above the id just assigned; without an explicit id it moves on by exactly one |
| RawSyntaxFactory.NodeFactory.constructor | include/swift/Syntax/RawSyntax.h:163-165 | the counter starts at the given value with no id issued |
| RawSyntaxFactory.NodeFactory.TakeNodeId | include/swift/Syntax/RawSyntax.h:244-249 | an explicit id is used and the counter becomes max(id+1, counter); otherwise the counter's value is used and incremented; the id is fresh and the counter stays above every issued id |
| RawSyntaxFactory.NodeFactory.MakeLayout | include/swift/Syntax/RawSyntax.h:224-257 | a layout node of the kind with the layout kept as given, the given length and presence, a sub-node count summed over the non-null children, and a fresh id |
| RawSyntaxFactory.NodeFactory.MakeLayoutAndCalcLength | include/swift/Syntax/RawSyntax.h:329-340 | as MakeLayout, with the length the sum of the non-null children's lengths |
| RawSyntaxFactory.NodeFactory.MakeToken | include/swift/Syntax/RawSyntax.h:264-299 | a token with exactly the given fields and a fresh id; callers must pass length 0 for a missing token and the sum of the three parts otherwise |
| RawSyntaxFactory.NodeFactory.MakeTokenAndCalcLength | include/swift/Syntax/RawSyntax.h:356-369 | the token's length is the sum of its three parts when present and 0 when missing, so the constructor's check holds |
| RawSyntaxFactory.MissingLayoutWithText | include/swift/Syntax/RawSyntax.h:329-340 | makeAndCalcLength builds a well-formed missing layout node of length 1 over a present one-byte token; a parent's computeTextLength counts 0 for it, a parent's makeAndCalcLength 1 |
| RawSyntaxFactory.NodeFactory.MissingLayout | include/swift/Syntax/RawSyntax.h:371-375 | a missing layout node of the kind, with no children, length 0 and no sub-nodes |
| RawSyntaxFactory.NodeFactory.MissingToken | include/swift/Syntax/RawSyntax.h:377-382 | a missing token that keeps its text, with no trivia, length 0 and no children |
| RawSyntaxFactory.NodeFactory.WithLeadingTrivia | include/swift/Syntax/RawSyntax.h:494-499 | a new token with the same kind, text, trailing trivia and presence, the new leading trivia, and the length recomputed |
| RawSyntaxFactory.NodeFactory.WithTrailingTrivia | include/swift/Syntax/RawSyntax.h:501-506 | a new token with the same kind, text, leading trivia and presence, the new trailing trivia, and the length recomputed |
| SyntaxParse.SplitTokenRange | lib/SyntaxParse/SyntaxTreeCreator.cpp:111-124 | the pieces have the trivia sizes and the remaining token length, and together they are exactly the buffer slice of the range |
| SyntaxParse.SplitPiecesAreDisjointAndContiguous | lib/SyntaxParse/SyntaxTreeCreator.cpp:113-124 | every byte of the range lands in exactly one piece, at its position: leading trivia first, then the text, then the trailing trivia |
| SyntaxParse.SyntaxTreeCreator.constructor | lib/SyntaxParse/SyntaxTreeCreator.cpp:29-40 | the arena buffer has the same length and contents as the source buffer |
| SyntaxParse.SyntaxTreeCreator.RecordToken | lib/SyntaxParse/SyntaxTreeCreator.cpp:107-130 | a present, well-formed token of the kind whose length is the range's byte length and whose three parts, joined, are the range's text |
| SyntaxParse.SyntaxTreeCreator.RecordMissingToken | lib/SyntaxParse/SyntaxTreeCreator.cpp:132-136 | a missing token of the kind, spelled as the kind is spelled, with length 0 and empty trivia |
| SyntaxParse.SyntaxTreeCreator.RecordRawSyntax | lib/SyntaxParse/SyntaxTreeCreator.cpp:138-154 | a present layout node of the kind whose children are the elements in order, and whose length is the sum over the non-null elements |
| SyntaxParse.SyntaxTreeCreator.LookupNode | lib/SyntaxParse/SyntaxTreeCreator.cpp:156-166 | a node exactly when there is a cache and it holds the offset and kind; (0, null) otherwise; on a hit, the node's length with the node |
| TaskWords.InitialStatus | include/swift/ABI/Task.h:113 | the default status has no record and is neither cancelled nor locked |
| TaskWords.MakeStatus | include/swift/ABI/Task.h:104-131 | for a record pointer with clear low bits, decoding gives back the record, the cancelled flag and the locked flag |
| TaskWords.StatusIsItsFields | include/swift/ABI/Task.h:104-131 | every status word decodes to an aligned record and flags that encode back to the same word |
| TaskWords.MisalignedRecordIsNotRecovered | include/swift/ABI/Task.h:114-118 | the encoding adds the tags, so a record with a low bit set is not decoded back: the carry makes the word read as locked and not cancelled |
| TaskWords.GetItem | include/swift/ABI/Task.h:335-350 | for a task pointer with clear low bits, getStatus and getTask give back the status and the task |
| TaskWords.ItemIsItsFields | include/swift/ABI/Task.h:335-350 | every item whose low bits name a status decodes to an aligned task and a status that encode back to the same item |
| TaskJob.NewJob | include/swift/ABI/Task.h:65-68 | a plain job needs flags that do not say task; it keeps the flags and priority and installs the invoke function |
| TaskJob.NewTaskJob | include/swift/ABI/Task.h:70-73 | a task's header needs flags that say task; it keeps the flags and priority and installs the continuation |
| TaskJob.RunSimpleInFullyEstablishedContext | include/swift/ABI/Task.h:91-93 | calls RunJob with the job itself and the executor |
| TaskJob.NewAsyncTask | include/swift/ABI/Task.h:178-186 | the task's header is a task job with the given function, its context is the initial context, and its status is the default: not cancelled, not locked, no record |
| TaskJob.TaskIsCancelledByItsStatus | include/swift/ABI/Task.h:196-200 | isCancelled answers the cancelled flag the task's status word was built with |
| TaskJob.TaskFragmentsFollowItsFlags | include/swift/ABI/Task.h:256-258 | hasChildFragment, hasGroupChildFragment and isFuture answer exactly the task's child, group-child and future flags |
| TaskJob.RunTaskInFullyEstablishedContext | include/swift/ABI/Task.h:192-194 | calls ResumeTask with the task, the executor and the task's resume context |
| TaskJob.RunInFullyEstablishedContext | include/swift/ABI/Task.h:456-461 | a job whose flags say task is resumed with the task's context; any other job is run; the function called is the one in the header |
| TaskJob.PlainJobRunsItsInvokeFunction | include/swift/ABI/Task.h:456-461 | a job built as a plain job is dispatched to the invoke function it was built with |
| TaskJob.TaskResumesWithItsContinuation | include/swift/ABI/Task.h:178-194 | a task built by the AsyncTask constructor is dispatched to its continuation, with its initial context |
| TaskLayout.ClearLowBitsRoundsDown | include/swift/ABI/Task.h:396 | for a power of two a, clearing the bits below a rounds down to a multiple of a |
| TaskLayout.AlignUp | include/swift/ABI/Task.h:394-396 | rounding up gives a multiple of the alignment that is at least x and less than x plus the alignment |
| TaskLayout.AlignUpIsLeast | include/swift/ABI/Task.h:396 | no smaller multiple of the alignment is at least x |
| TaskLayout.StorageOffset | include/swift/ABI/Task.h:393-397 | storageOffset is a multiple of the result's alignment, at least the fragment's header size and less than header plus alignment |
| TaskLayout.StorageOffsetIsLeast | include/swift/ABI/Task.h:393-397 | storageOffset is the smallest such multiple |
| TaskLayout.FragmentSize | include/swift/ABI/Task.h:401-403 | fragmentSize is the storage offset plus the result's size, so at least header plus result size |
| TaskLayout.ChildFragmentOffset | include/swift/ABI/Task.h:260-267 | needs the child flag; the child fragment sits right after the task header, behind no other fragment |
| TaskLayout.GroupChildFragmentOffset | include/swift/ABI/Task.h:299-308 | needs the group-child flag; the offset is the header size plus the child fragment, if present |
| TaskLayout.FutureFragmentOffset | include/swift/ABI/Task.h:408-418 | needs the future flag; the offset is the header size plus whichever of the two other fragments are present, and is pointer-aligned |
| TaskLayout.FragmentOffset | include/swift/ABI/Task.h:408-418 | every fragment accessor agrees with one rule: after the header and every present fragment that comes before it in the fixed order |
| TaskLayout.PrecedingSizes | include/swift/ABI/Task.h:146-156 | the reference rule worked out: nothing precedes the child fragment; the child fragment precedes the group-child fragment; both precede the future fragment |
| TaskLayout.FragmentsAreOrderedAndDisjoint | include/swift/ABI/Task.h:146-156 | present fragments lie after the header, in the order child, group child, future, and none overlaps the next |
| TaskLayout.AsWrittenStorageOffsetInTask | include/swift/ABI/Task.h:383-386 | where getStoragePtr points, measured from the task: past the future fragment's header |
| TaskLayout.AsWrittenStorageAlignedForSmallAlignment | include/swift/ABI/Task.h:383-397 | result types aligned to at most a pointer word are stored at an aligned offset within the task |
| TaskLayout.AsWrittenStorageIsMisaligned | include/swift/ABI/Task.h:393-418 | behind a child and a group-child fragment the future fragment starts at 136, so a result aligned to 16 is stored at offset 168 from the task, which is 8 mod 16 |
| TaskLayout.StorageOffsetInTask | include/swift/ABI/Task.h:383-403 | the corrected storage offset is a multiple of the result's alignment within the task, past the fragment's header, and less than one alignment beyond it; for result types aligned no more than the task itself, the storage ends within the fragment that fragmentSize sizes |
| TaskLayout.AlignedStorageFitsFragment | include/swift/ABI/Task.h:393-403 | for a pointer-aligned fragment and a result aligned to at most 16, rounding the storage up within the task moves it no further than the slack storageOffset leaves, so the result still fits in fragmentSize |
| TaskLayout.StorageAddress | include/swift/ABI/Task.h:383-386 | getStoragePtr with the corrected offset: from a task aligned to the result's alignment, the storage address is aligned and lies past the fragment's header |
| TaskLayout.StorageOffsetInTaskIsLeast | include/swift/ABI/Task.h:393-397 | the corrected offset is the smallest aligned offset past the fragment's header |
| TaskLayout.StorageOffsetInTaskAgreesForSmallAlignment | include/swift/ABI/Task.h:393-397 | for alignments up to a pointer word the corrected offset is the one the code computes |
| TaskFragments.ChildFragment.constructor | include/swift/ABI/Task.h:234-237 | the parent is the one given and the next-child link starts null |
| TaskFragments.ChildFragment.SetNextChild | include/swift/ABI/Task.h:243-253 | getNextChild then returns the task; the parent is a constant, so it is unchanged |
| TaskFragments.GroupChildFragment.constructor | include/swift/ABI/Task.h:276-291 | getGroup returns the group the fragment was built with |
| TaskFragments.TerminalStatusIsFinal | include/swift/ABI/Task.h:314-317 | once a future's status is Success or Error, it stays the same at every later step |
| TaskFragments.AtMostOneStatusChange | include/swift/ABI/Task.h:314-317 | a future's status changes at most once |
| TaskFragments.StepKeepsHistoryValid | include/swift/ABI/Task.h:314-329 | staying put, or going from Executing to a final status, keeps a status history valid |
| TaskFragments.FutureFragment.constructor | include/swift/ABI/Task.h:371-373 | a new future is Executing with an empty wait queue and no error, and keeps its result type |
| TaskFragments.FutureFragment.Status | include/swift/ABI/Task.h:353-358 | the status read off the wait queue word is the latest status in the future's history |
| TaskFragments.FutureFragment.WaitFuture | include/swift/ABI/Task.h:420-426 | an executing future puts the waiting task at the head of its queue and answers Executing; a completed one answers its final status and changes nothing |
| TaskFragments.FutureFragment.CompleteFuture | include/swift/ABI/Task.h:428-432 | the status goes once from Executing to the outcome, the queue is emptied, the former head of waiters is returned, and an error outcome stores the failure |

## Left out

- Atomics are not modelled: the status word, the wait queue, relaxed loads, compare-and-swap retry loops and the lock-bit protocol. Every operation here is one sequential step.
- The bodies of `waitFuture`, `completeFuture` and `FutureFragment::destroy` are not in Task.h.
  - TaskFragments.FutureFragment.WaitFuture and TaskFragments.FutureFragment.CompleteFuture model only their documented contract, sequentially.
  - The list of waiting tasks, which runs through each task's scheduler-private word, is a ghost sequence.
  - Wake-up order and rescheduling on an executor are not modelled.
- Executors, pointer authentication, HeapObject reference counting and task-local storage (push, get, pop) are foreign collaborators. AsyncTask has no fields for them.
- `AsyncContext::resumeParent` and the yielding and future context classes are indirect calls with no behaviour of their own beyond calling a stored function.
- The `sizeof`/`alignof` static assertions are not modelled. The 64-bit sizes are constants: Job 32, AsyncTask 112, ChildFragment 16, GroupChildFragment 8, FutureFragment 24.
- The trailing-objects allocation of RawSyntax and of tasks is not modelled: the model computes offsets, not memory.
- SyntaxArena internals are not modelled: allocation, child arenas, hot-use regions. Copying a string into the arena is an identity on its contents.
- `append`, `replacingChild`, trivia-piece parsing, `print`, `dump` and `Profile` are declared but not defined in RawSyntax.h, so they are not modelled.
- The kind predicates (`isDecl` and the others) depend on tables outside these files, so they are not modelled.
- The `SyntaxVerifier`, `realizeSyntaxRoot` and SourceManager location lookups are not modelled.
  - The spelling table `getTokenText(kind)` is an opaque function supplied to the SyntaxTreeCreator constructor.
- `ActiveTaskStatus::records()` walks status records through a parent function that is outside these files, so it is not modelled.
- `AsyncTask::getNextWaitingTask` exposes a scheduler-private word; it appears only as the ghost waiter list of FutureFragment.
- RawSyntaxFactory.NodeFactory.TakeNodeId: the counter is unbounded; the 32-bit wrap-around of `SyntaxNodeId` is not modelled.
- RawSyntaxFactory.NodeFactory.MakeLayout, RawSyntaxFactory.NodeFactory.MakeToken: the 32-bit and 16-bit bitfields (TextLength, NumChildren, TotalSubNodeCount, trivia and text lengths, TokenKind) are bounds preconditions rather than silent truncation.
- SyntaxParse.SyntaxTreeCreator.RecordToken takes the range start as an offset into the buffer, because SourceManager is outside the model.
  - It requires the range to lie within the buffer and the trivia to fit within the range.
  - The unsigned wrap-around of the length subtraction and the clamping of `StringRef::substr` past the end are not modelled.
- TaskLayout.StorageOffset: `size_t` overflow of `offset + alignment - 1` is not modelled, and the alignment must be a power of two, as value witnesses report it.
- RawSyntaxFactory.NodeFactory.constructor takes the counter's initial value as a parameter: the definition of the static `NextFreeNodeId` is not part of this model.
- `SyntaxParsingCache::lookUp` is not part of this model: SyntaxParse.SyntaxTreeCreator.LookupNode treats the cache as a map from offset and kind to a node.
- TaskLayout.StorageOffsetInTask: for result types aligned more than the task's own 16 bytes, the storage can end past fragmentSize (a group-child future with an 8-byte result aligned to 32 stores it at 160, where the fragment ends). Correcting the allocation size for those is not modelled.
- RawSyntax.PresentLengthIsChildrenLength assumes that every child keeps the rule of RawSyntax.h:175-176 (RawSyntax.MissingIsEmpty). The layout `make` does not enforce that rule; see Findings.
- TaskJob.RunInFullyEstablishedContext requires a job object whose flags agree with what it is. Every object built by the constructors does, as TaskJob.PlainJobRunsItsInvokeFunction and TaskJob.TaskResumesWithItsContinuation show.

## Findings

| source | as written | input that shows it | evidently intended | confidence | as-written member | corrected member |
|---|---|---|---|---|---|---|
| include/swift/ABI/Task.h:383-418 | `getStoragePtr` adds `storageOffset(resultType)` to the future fragment's own address. `storageOffset` aligns only relative to the fragment. The fragment itself sits at 112, 120, 128 or 136 bytes into the task, depending on which other fragments are present. | A future that is also a child task and a group child, with a result type of size 16 and alignment 16. The fragment sits at 136, the storage offset is 32, so the storage is at 168 from a task aligned to 16: 168 mod 16 is 8. | The result storage is aligned to the result type's alignment within the task: the smallest aligned offset past the fragment's header. This agrees with the code for alignments up to 8. | medium; not executed | TaskLayout.AsWrittenStorageIsMisaligned | TaskLayout.StorageOffsetInTask (used by TaskLayout.StorageAddress) |
| include/swift/Syntax/RawSyntax.h:224-257 | The layout constructor stores TextLength as given and checks it against nothing. The field's comment (lines 175-176) says it is always 0 for a missing node. `makeAndCalcLength` sums the children's lengths whatever the presence. | `makeAndCalcLength` of a node kind over one present one-byte token, with presence Missing: the node is missing with length 1. In a parent, `computeTextLength` (lines 302-311) skips it and counts 0, while the parent's `makeAndCalcLength` counts 1. | Every missing node has length 0, as the comment says; for layout nodes whose children keep that rule, `computeTextLength` agrees with the length `makeAndCalcLength` stored. | low; not executed | RawSyntaxFactory.MissingLayoutWithText | RawSyntax.CachedLengthIsComputedLength (on RawSyntax.MissingIsEmpty, which RawSyntax.PresentLengthIsChildrenLength assumes) |
