# OmniAgent cores: a Dafny model

This project models the algorithmic cores of the OmniAgent crates and proves properties of
them: the DAG task scheduler and workflow engine, the in-memory file system, the glob
matcher and the policy engine that calls it, the region allocator with the quantiser and the
row-major tensor operations, the state-based CRDTs and vector clocks, the streaming SHA-256
hasher, and the secondary indexes of the learning crate.

Objects whose methods update fields are classes here, with the same fields. Each method is
proved against a value-level description of what it does, and the results over whole runs are
proved about those descriptions.

| files | what they hold |
|---|---|
| `Graphs`, `SchedulerState`, `CycleSearch`, `Kahn`, `StaleIndex`, `TaskScheduler` | dependency graphs, the scheduler as a value, three-colour search, in-degree sort, when its index is right, the scheduler class |
| `Dispatch`, `Progress`, `Workflows`, `Handouts` | runs of the scheduler, driving it to completion, the workflow engine, tasks handed out twice |
| `Paths`, `Namespace`, `Framing`, `Entries`, `Descriptors`, `FileBytes`, `Vfs` | path splitting, the inode tree, which paths an operation changes, entry checks, descriptor pool, file bytes, the file-system class |
| `Glob`, `GlobLimits`, `AccessControl` | the matcher and its language, where it departs from it, the policy engine |
| `Region`, `Quantiser`, `TensorLayout`, `ConcatLayout` | first-fit allocator, quantisation, tensor slices and transposes, what concatenating does to slices |
| `Crdt`, `Replication`, `Causality` | clocks, counters, sets and registers, runs of replicas exchanging snapshots, what clocks tell about which increment came first |
| `Bits`, `Primes`, `Streaming`, `Fips180`, `Sha256Laws`, `HashStream` | bitwise operations, a table of primes, block streaming, SHA-256 as FIPS 180-4 states it, what its functions compute bit by bit and byte by byte, the hasher class |
| `Knowledge`, `Memories` | the knowledge graph's entity index, the memory store's tiers |
| `Wrappers`, `Sequences`, `Products` | options and results, duplicate-free sequences, laws of multiplication |

How the program's types are read: hash-map iteration picks keys in arbitrary order; the binary
heap is the multiset it holds, popped at its greatest entry; stable sorts are stable insertion
sorts; node ids are numbers in the order of their bytes; strings in paths are bytes, so that
name lengths are counted as the code counts them. Task ids, inode numbers, descriptors, clock
and counter values are unbounded. 64-bit wrap-around is written out where results depend on
it: seek targets, the hasher's length, and the allocator's address arithmetic, where
`Overflow` stands for an operation that leaves the 64-bit range (a panic in a debug build, a
wrapped value in a release build). 32-bit words are numbers below 2^32 with bitwise operations
defined bit by bit.

Where documentation and code disagree, the code is followed. The comment on `glob_match`
says that `*` stops at separators; the code lets it match them. `query_subject` is documented
for subjects and returns the triples in which the entity has either role. `CREATE` with
`EXCLUSIVE` opens an existing file all the same.

Properties that turned out to hold only under a condition come with that condition:

* The matcher decides its language for a pattern exactly when the pattern has no slash
  directly after an even, nonzero number of stars; for every other pattern a text on which
  it differs is constructed (`GlobLimits.ExactlyWithoutSkippedSlash`).
* The half-step bound and the code round trip of the quantiser hold exactly when zero is in
  the range or close enough to it (`Quantiser.HalfStepExactly`, `Quantiser.RoundTripExactly`).
* The allocator answers every nonempty 64-bit request correctly exactly when every gap, aligned up,
  ends no earlier than it starts (`Region.AlwaysRightExactly`); mixed alignments can break
  this (`Region.MixedAlignmentOverflows`).
* Adding a task keeps the reverse index a mirror of the dependency graph exactly when no
  earlier task under the same id had dependencies (`SchedulerState.AddedMirroredExactly`).
* If the index was a mirror before an addition, and after it the graph has no cycle and no
  unregistered dependency, then the topological sort decrements an in-degree below zero
  exactly when a dependency of an earlier task under the same id is now a task
  (`StaleIndex.ReuseUnderflowsExactly`). `Underflow` stands for that: a panic in a debug
  build, a wrapped value in a release build.
* Take runs that add only given tasks, under fresh ids, and complete each at most once. If
  any known task may be completed, handed out or not, some run hands a given task out twice
  exactly when the task names a dependency twice, all its dependencies are among the tasks
  and it is none of them (`Handouts.HandedTwiceExactly`). If only tasks that were handed out
  may be completed, some run does so exactly when everything the task depends on, directly or
  not, is a task and on no cycle, and it names twice a dependency to which none of its other
  dependencies leads (`Handouts.HandedTwiceStrictly`).
* Slicing a concatenation recovers its operands, whatever their elements, exactly when there
  is at most one position before the axis or at most one operand has data
  (`ConcatLayout.RecoveredExactly`); the code joins operands one after the other along any
  axis.
* Merging registers commutes exactly when they are equal or their stamps differ
  (`Crdt.LatestCommutesExactly`), and a replica holds the greatest write it has seen exactly
  when its stamp exceeds every empty start it met (`Replication.WriteHeldExactly`).

## Model

| member | source | states |
|---|---|---|
| TaskScheduler.TaskScheduler.AddTask | crates/omniagent-automation/src/lib.rs:577-612 | succeeds exactly when every dependency is a known task; otherwise names the first unknown one and changes nothing |
| TaskScheduler.TaskScheduler.AddTaskNoCheck | crates/omniagent-automation/src/lib.rs:617-644 | the new state of graph, reverse index, queue and registry, whatever the ids; the task is queued under its own priority exactly when its dependencies are completed |
| TaskScheduler.TaskScheduler.NextTask | crates/omniagent-automation/src/lib.rs:650-662 | hands out an id neither completed nor failed: while a Critical entry of such an id is queued, a Critical one, while a High one is, none below High, while a Normal one is, none below Normal, and within one priority the greatest id; drops exactly the dead entries above it, and returns nothing only when no entry is live |
| TaskScheduler.TaskScheduler.CompleteTask | crates/omniagent-automation/src/lib.rs:667-701 | the unblocked tasks in index order, once per mention, and the new queue; unknown ids are an error |
| TaskScheduler.TaskScheduler.FailTask | crates/omniagent-automation/src/lib.rs:704-711 | marks exactly the known task as failed |
| TaskScheduler.TaskScheduler.HasCycle | crates/omniagent-automation/src/lib.rs:716-733 | true exactly when the dependency graph has a cycle, for any graph and any visiting order |
| TaskScheduler.TaskScheduler.DfsCycle | crates/omniagent-automation/src/lib.rs:736-755 | a hit is a cycle; otherwise the node ends black, finished after its dependencies, and the stack is as before |
| TaskScheduler.TaskScheduler.DfsVisit | crates/omniagent-automation/src/lib.rs:740-751 | gray closes a cycle, white is searched, black and unregistered dependencies are skipped |
| TaskScheduler.TaskScheduler.TopologicalOrder | crates/omniagent-automation/src/lib.rs:760-829 | on any scheduler: fails on a cycle; without one it underflows exactly when the index gives some task more decrements than its in-degree; with a mirroring index it succeeds exactly when there is no cycle and every dependency is registered, and lists each task once, dependencies first |
| TaskScheduler.TaskScheduler.SortByDegrees | crates/omniagent-automation/src/lib.rs:765-828 | the in-degree sort on whatever index there is: the result fires every task in turn, and the final length check fails only when no order does |
| TaskScheduler.TaskScheduler.QueueStep | crates/omniagent-automation/src/lib.rs:807-821 | one queue step keeps in-degrees equal to what the decrements have left and the queue equal to the tasks at zero; a decrement below zero means some task is overfed |
| TaskScheduler.TaskScheduler.IsComplete | crates/omniagent-automation/src/lib.rs:845-847 | true exactly when as many tasks are completed as there are |
| SchedulerState.AddedMirrored | crates/omniagent-automation/src/lib.rs:587-597 | adding under a fresh id keeps the reverse index an exact mirror, counting repeated mentions |
| SchedulerState.AddedMirroredExactly | crates/omniagent-automation/src/lib.rs:587-597 | adding a task keeps the mirror exactly when no earlier task under its id had dependencies |
| StaleIndex.AddedCovers | crates/omniagent-automation/src/lib.rs:617-644 | whatever the ids, the index never lists a task too rarely |
| StaleIndex.OverfedExactly | crates/omniagent-automation/src/lib.rs:807-821 | for a sortable graph and such an index, the sort underflows exactly when some task is listed under another more often than it names it |
| StaleIndex.ReuseUnderflowsExactly | crates/omniagent-automation/src/lib.rs:617-644 | after an addition to an exact index that leaves an acyclic graph with all dependencies registered, the sort underflows exactly when a dependency of an earlier task under the same id is now a task |
| StaleIndex.MirroredFiresAll | crates/omniagent-automation/src/lib.rs:806-828 | with a mirroring index on an acyclic graph, all tasks fire in some order exactly when all dependencies are registered, and every such order is a linear extension |
| SchedulerState.CompletedQueue | crates/omniagent-automation/src/lib.rs:676-700 | a completion queues each live task whose dependencies are now done, as often as it names the completed one, and nothing else |
| SchedulerState.NextExists | crates/omniagent-automation/src/lib.rs:650-662 | from every state next_task has an outcome |
| SchedulerState.NextHandsOut | crates/omniagent-automation/src/lib.rs:83-92 | the order in which entries leave the queue is Critical, High, Normal, Low, and the greater id first within one priority |
| Graphs.OrderedHasNoCycle | crates/omniagent-automation/src/lib.rs:713-755 | a dependencies-first order of all nodes rules out cycles |
| Graphs.NoSinkIsCyclic | crates/omniagent-automation/src/lib.rs:823-826 | a nonempty set whose members each depend on another member contains a cycle |
| Graphs.OrderExcludesCycle | crates/omniagent-automation/src/lib.rs:757-829 | a topological order exists only without cycles and with all dependencies registered |
| CycleSearch.Enter | crates/omniagent-automation/src/lib.rs:736-737 | turning a node gray keeps the search invariant and lowers the number of white nodes |
| CycleSearch.Leave | crates/omniagent-automation/src/lib.rs:753-754 | turning it black after its dependencies keeps the finishing order dependencies-first |
| CycleSearch.GrayClosesCycle | crates/omniagent-automation/src/lib.rs:741-742 | meeting a gray node closes a cycle along the stack |
| CycleSearch.AllBlack | crates/omniagent-automation/src/lib.rs:724-732 | once all nodes are black there is no cycle |
| Kahn.UnderflowOverfeeds | crates/omniagent-automation/src/lib.rs:811-814 | an in-degree decremented at zero belongs to a task with more decrements than dependency mentions |
| Kahn.DryFeeds | crates/omniagent-automation/src/lib.rs:806-821 | a sort that runs dry without underflow overfeeds no task in any order |
| Kahn.EndStep | crates/omniagent-automation/src/lib.rs:807-821 | after lowering all dependents, in-degrees are what the longer result has left |
| Kahn.QueueDry | crates/omniagent-automation/src/lib.rs:823-828 | when the queue runs dry the length check passes exactly when some order of all tasks fires |
| Dispatch.RunKeeps | crates/omniagent-automation/src/lib.rs:577-711 | in every state of every run the index mirrors the graph, the registry records each task with its dependencies, queued entries are ready tasks at their priority, and every ready task never handed out is queued |
| Dispatch.DispatchSafe | crates/omniagent-automation/src/lib.rs:650-701 | in any run, an id handed out is neither completed nor failed and all its dependencies are completed; no such task never handed out is passed over at a higher priority, in the order Critical, High, Normal, Low, or at the same priority under a greater id |
| Dispatch.CompletionReports | crates/omniagent-automation/src/lib.rs:667-701 | in any run, a completion reports a task exactly when the task is open, all its dependencies are completed now and it names the completed one, as often as it names it |
| Dispatch.NoDeadlock | crates/omniagent-automation/src/lib.rs:650-711 | when nothing can be handed out and nothing is outstanding, every open task depends on a failed task, an unknown one or a cycle; with registered acyclic dependencies, on a failed one |
| Dispatch.HandedOnce | crates/omniagent-automation/src/lib.rs:650-701 | with distinct dependencies and single completions no task is handed out twice |
| Handouts.RepeatedDependencyHandsOutTwice | crates/omniagent-automation/src/lib.rs:680-695 | a task that repeats a dependency, knows all its dependencies and is none of them is handed out twice by some run that completes known tasks, handed out or not, at most once each; the other tasks may form cycles or lack dependencies |
| Handouts.HandedTwiceExactly | crates/omniagent-automation/src/lib.rs:650-701 | for tasks of distinct ids, some run that completes known tasks, handed out or not, at most once each hands a given one out twice exactly when it is such a task |
| Handouts.LastTwiceHandsOutTwice | crates/omniagent-automation/src/lib.rs:650-701 | a task that some run can get ready and that names twice a dependency to which none of its others leads is handed out twice by some run that completes only handed-out tasks |
| Handouts.HandedAttainable | crates/omniagent-automation/src/lib.rs:650-701 | when only handed-out tasks are completed, whatever a handed-out task depends on, directly or not, is a task and on no cycle |
| Handouts.HandedTwiceStrictly | crates/omniagent-automation/src/lib.rs:650-701 | for tasks of distinct ids, some run that completes only handed-out tasks, once each, hands a given one out twice exactly when all it depends on, directly or not, is a task and on no cycle and it names twice a dependency to which none of its others leads |
| Progress.RunsToCompletion | crates/omniagent-automation/src/lib.rs:650-711 | alternating hand-out and completion never repeats, never gets stuck early, is complete after exactly as many picks as tasks, and picks in dependency order |
| Progress.DriveToEnd | crates/omniagent-automation/src/lib.rs:650-701 | every such run can be continued to completion |
| Progress.CheckedAddStaysAcyclic | crates/omniagent-automation/src/lib.rs:577-612 | additions under fresh ids with the dependency check never close a cycle |
| Workflows.WorkflowEngine.RegisterWorkflow | crates/omniagent-automation/src/lib.rs:899-931 | accepts exactly new workflows with distinct task ids and known dependencies; each refusal names its reason |
| Workflows.WorkflowEngine.Execute | crates/omniagent-automation/src/lib.rs:937-1098 | fails with a cycle error exactly on a cyclic graph; otherwise, under every error handling, ends completed with all tasks in topological order, none failed and every result successful, under a new execution id |
| Workflows.OrderTasks | crates/omniagent-automation/src/lib.rs:965-980 | filling a scheduler and sorting it fails exactly on a cycle, so the sort after the check cannot fail |
| Workflows.RunInOrder | crates/omniagent-automation/src/lib.rs:982-1095 | the execution loop over a linear extension finishes every task well |
| Workflows.RunTaskWell | crates/omniagent-automation/src/lib.rs:991-1092 | with all dependencies among the successes so far, the task succeeds and no failure branch is taken |
| Workflows.RunAccounts | crates/omniagent-automation/src/lib.rs:982-1092 | from an empty start, any sequence of tasks is accounted for, each on exactly one list that matches its result, and only failing fast stops a run |
| Workflows.RunTaskAccounts | crates/omniagent-automation/src/lib.rs:982-1092 | a task counts as completed exactly when every dependency has a good result, a retry is left or there is a fallback; it goes on that list with that result, except that failing fast stops without one |
| Workflows.GraphOfRegistered | crates/omniagent-automation/src/lib.rs:919-927 | registered workflows give graphs whose dependencies are all nodes |
| Workflows.ExecutionIdReads | crates/omniagent-automation/src/lib.rs:950 | an execution id is exec-, then the counter in decimal digits without leading zeros |
| Workflows.ExecutionIdInjective | crates/omniagent-automation/src/lib.rs:950-951 | execution ids of different counts differ |
| Paths.ComponentsAtSlash | crates/omniagent-fs/src/lib.rs:536 | a slash separates the components before it from those after it |
| Paths.ComponentsTrim | crates/omniagent-fs/src/lib.rs:529 | trimming leading slashes changes no component |
| Paths.ComponentsOfParent | crates/omniagent-fs/src/lib.rs:574-580 | splitting at the last slash gives all components but the last, and the last |
| Paths.SpelledComponents | crates/omniagent-fs/src/lib.rs:536 | spelling a list of names out and splitting it gives the list back |
| Namespace.PathReaches | crates/omniagent-fs/src/lib.rs:524-560 | every live inode is reached by the names on its chain of parents |
| Namespace.WalkIsPath | crates/omniagent-fs/src/lib.rs:524-560 | and by no other component list: walks and live inodes correspond one to one |
| Namespace.CreateKeepsTree | crates/omniagent-fs/src/lib.rs:779-794 | creating keeps the tree: one entry per live inode, in its parent, parents older, types matching, names distinct |
| Namespace.RemoveKeepsTree | crates/omniagent-fs/src/lib.rs:863-868 | removing a leaf keeps the tree |
| Framing.SplittersAgree | crates/omniagent-fs/src/lib.rs:524-588 | the two splitters agree on every path that ends in a name; over-long names are reported differently and other paths have no parent |
| Framing.WalksApart | crates/omniagent-fs/src/lib.rs:540-559 | what walks to and past an added or removed leaf report, error by error |
| Framing.CreateFrame | crates/omniagent-fs/src/lib.rs:765-797 | a creation makes exactly one component list resolve; every other one leads where it led before, or fails as before, if perhaps for another reason past the new entry |
| Framing.RemoveFrame | crates/omniagent-fs/src/lib.rs:835-910 | a removal makes exactly one component list stop resolving, with the same frame |
| Framing.WithDataKeepsTree | crates/omniagent-fs/src/lib.rs:720-726 | changing a file's bytes keeps the tree and every walk |
| Entries.CreateExactly | crates/omniagent-fs/src/lib.rs:765-778 | creation passes its checks exactly when the path ends in a name of at most 255 bytes, its parent part leads to a directory and it does not resolve |
| Entries.RemoveFileExactly | crates/omniagent-fs/src/lib.rs:835-861 | removal of a file passes exactly when the path ends in a name and resolves to a regular file no descriptor has open |
| Entries.RemoveDirExactly | crates/omniagent-fs/src/lib.rs:873-901 | removal of a directory passes exactly when the path ends in a name and resolves to an empty directory |
| Entries.CreateRefusals | crates/omniagent-fs/src/lib.rs:765-778 | which error refuses a creation: an improper path, the error of walking to the parent, a parent that is a file, or an entry in the way |
| Entries.RemoveRefusals | crates/omniagent-fs/src/lib.rs:835-901 | which error refuses a removal: an improper path, the parent's error, nothing of that name, a directory for a file or a file for a directory, a file in use, a directory with entries |
| Descriptors.AllocateKeepsPool | crates/omniagent-fs/src/lib.rs:513-521 | open and free descriptors partition the numbers below next_fd, which is the most ever open at once |
| Descriptors.FreeKeepsPool | crates/omniagent-fs/src/lib.rs:649-657 | closing returns the number to the pool |
| Descriptors.FlagBits | crates/omniagent-fs/src/lib.rs:239-269 | bit 0 of the flags reads, bits 1 and 2 write, bit 2 appends, bit 3 creates, bit 4 truncates, bit 6 allows directories |
| Descriptors.SeekExactly | crates/omniagent-fs/src/lib.rs:744-753 | for offsets and sizes below 2^63 a seek goes where it is meant to, or is refused when that does not fit |
| Vfs.VirtualFileSystem.constructor | crates/omniagent-fs/src/lib.rs:485-495 | an empty file system satisfies the invariant |
| Vfs.VirtualFileSystem.InitRoot | crates/omniagent-fs/src/lib.rs:498-503 | the first root starts the tree |
| Vfs.VirtualFileSystem.ResolvePath | crates/omniagent-fs/src/lib.rs:524-560 | the walk over the path's components from the root |
| Vfs.VirtualFileSystem.ResolveParent | crates/omniagent-fs/src/lib.rs:563-588 | the parent and the name under it |
| Vfs.VirtualFileSystem.Open | crates/omniagent-fs/src/lib.rs:591-646 | fails exactly when a check fails and then changes nothing; else a descriptor not in use, at offset 0, with the flags as given, readable exactly when bit 0 is set and writable exactly when bit 1 or bit 2 is, on the existing file (emptied if asked) or on a created one; no other path and no other file changes |
| Vfs.CheckOpenExactly | crates/omniagent-fs/src/lib.rs:591-626 | a path that resolves opens unless it is a directory and bit 6 is not set; one not found opens exactly when bit 3 is set and it can be created; each refusal with its error |
| Vfs.OpenEffectExactly | crates/omniagent-fs/src/lib.rs:604-609 | an existing file is emptied exactly when bit 4 is set and bit 1 or bit 2 is; nothing else changes |
| Vfs.OpenedAccess | crates/omniagent-fs/src/lib.rs:627-734 | through a descriptor just opened on a regular file, a read succeeds exactly when bit 0 is set and a write exactly when bit 1 or bit 2 is; else permission is denied |
| Vfs.AccessExactly | crates/omniagent-fs/src/lib.rs:660-712 | the errors of reading and writing in their order: no such descriptor, no permission, no inode, a directory |
| Vfs.WriteOffsetExactly | crates/omniagent-fs/src/lib.rs:714-718 | a write starts at the end of the data exactly when bit 2 is set, else at the offset |
| Vfs.VirtualFileSystem.RegularStaysLive | crates/omniagent-fs/src/lib.rs:835-870 | an open descriptor on a regular file refers to a live regular file |
| Vfs.VirtualFileSystem.Close | crates/omniagent-fs/src/lib.rs:649-657 | forgets exactly this descriptor |
| Vfs.VirtualFileSystem.Read | crates/omniagent-fs/src/lib.rs:660-694 | the bytes at the offset, up to the end of the file, then the rest of the buffer as it was; the offset moves past them |
| Vfs.VirtualFileSystem.Write | crates/omniagent-fs/src/lib.rs:697-734 | the buffer at the offset, or at the end when appending, a gap zero-filled, size equal to the data length, the offset just after it; nothing else changes |
| Vfs.VirtualFileSystem.Seek | crates/omniagent-fs/src/lib.rs:737-762 | the new offset from start, current position or end in 64-bit arithmetic; a negative one is refused |
| Vfs.VirtualFileSystem.CreateFile | crates/omniagent-fs/src/lib.rs:765-797 | succeeds exactly on a creatable path; then exactly this path starts to resolve, to a new empty file |
| Vfs.VirtualFileSystem.CreateDir | crates/omniagent-fs/src/lib.rs:800-832 | the same for an empty directory |
| Vfs.VirtualFileSystem.RemoveFile | crates/omniagent-fs/src/lib.rs:835-870 | exactly this path stops resolving; the file was regular and not open |
| Vfs.VirtualFileSystem.RemoveDir | crates/omniagent-fs/src/lib.rs:873-910 | exactly this path stops resolving; the directory was empty |
| Vfs.WritesJoin | crates/omniagent-fs/src/lib.rs:697-734 | two writes through one descriptor are one write of both buffers, appending or not |
| Vfs.ReadsJoin | crates/omniagent-fs/src/lib.rs:660-694 | two reads through one descriptor are one read for both sizes |
| Vfs.ManyWrites | crates/omniagent-fs/src/lib.rs:697-734 | any number of writes through one descriptor is one write of everything, appending or not |
| Vfs.ManyReads | crates/omniagent-fs/src/lib.rs:660-694 | any number of reads through one descriptor is one read for the sum of the sizes |
| Vfs.WriteThenRead | crates/omniagent-fs/src/lib.rs:660-734 | reading back from where a write started gives the bytes written |
| Vfs.WriteKeepsPaths | crates/omniagent-fs/src/lib.rs:697-734 | a write changes what no path resolves to |
| FileBytes.WrittenAt | crates/omniagent-fs/src/lib.rs:713-725 | byte by byte: buffer, zeros in the gap, old bytes elsewhere |
| FileBytes.WriteChunks | crates/omniagent-fs/src/lib.rs:697-734 | any chunking of a write leaves the same bytes and offset |
| FileBytes.AppendChunks | crates/omniagent-fs/src/lib.rs:713-717 | appends concatenate, whatever the offset |
| FileBytes.ReadChunks | crates/omniagent-fs/src/lib.rs:660-694 | any chunking of a read yields the same bytes and offset |
| Glob.GlobMatch | crates/omniagent-security/src/access_control.rs:349-409 | terminates, and for patterns without a skipped slash is true exactly when the text is in the pattern's language |
| Glob.AcceptsLanguage | crates/omniagent-security/src/access_control.rs:343-409 | the loop decides the language where a run of stars matches any string and `?` any character |
| Glob.RunExact | crates/omniagent-security/src/access_control.rs:377-398 | from every loop state, backtracking to the last star only loses no match |
| Glob.MatchIsLanguage | crates/omniagent-security/src/access_control.rs:343-348 | position-wise matching is concatenation of fitting pieces |
| Glob.NoStarStarSlash | crates/omniagent-security/src/access_control.rs:370-373 | patterns without two stars and a slash have no skipped slash |
| GlobLimits.ExactlyWithoutSkippedSlash | crates/omniagent-security/src/access_control.rs:349-409 | the matcher decides the language of exactly the patterns without a skipped slash |
| GlobLimits.Disagreement | crates/omniagent-security/src/access_control.rs:370-373 | a text on which it differs, for every other pattern |
| GlobLimits.MatchKeepsSlashes | crates/omniagent-security/src/access_control.rs:385-390 | a text in the language has at least the slashes the pattern spells out |
| AccessControl.AccessControlEngine.AddPolicy | crates/omniagent-security/src/access_control.rs:243-247 | the policies stay the stable descending sort of those added |
| AccessControl.AccessControlEngine.RemovePolicy | crates/omniagent-security/src/access_control.rs:250-254 | removal keeps that order, and reports whether anything went |
| AccessControl.AccessControlEngine.Evaluate | crates/omniagent-security/src/access_control.rs:262-326 | the decision of the first policy that decides, else the default denial, with one matching audit entry |
| AccessControl.AccessControlEngine.RuleMatches | crates/omniagent-security/src/access_control.rs:119-145 | every pattern present accepts its part of the request |
| AccessControl.SaysExactly | crates/omniagent-security/src/access_control.rs:262-326 | a policy says a decision exactly when the first rule that matches has it as its effect, or no rule matches and it is the default and not the default denial |
| AccessControl.OutcomeExactly | crates/omniagent-security/src/access_control.rs:262-326 | the decision is that of the first policy that says any, or the default denial when none does |
| AccessControl.KeptExactly | crates/omniagent-security/src/access_control.rs:250-254 | removal takes out every policy of the id and no occurrence of another |
| AccessControl.SortedExactly | crates/omniagent-security/src/access_control.rs:243-247 | after any additions: descending, a permutation, first come first within one priority |
| AccessControl.KeptSorted | crates/omniagent-security/src/access_control.rs:243-254 | removing from the sorted policies is sorting without them |
| AccessControl.AddedOutcome | crates/omniagent-security/src/access_control.rs:243-326 | a new policy takes over the decision exactly when it decides the request and nothing of at least its priority does; otherwise the outcome is as before |
| Crdt.VectorClock.Increment | crates/omniagent-distributed/src/crdt.rs:46-49 | adds exactly one increment of this node |
| Crdt.VectorClock.Merge | crates/omniagent-distributed/src/crdt.rs:52-57 | the union of the increments |
| Crdt.VectorClock.Compare | crates/omniagent-distributed/src/crdt.rs:66-95 | the outcome is right for the inclusion of the two increment histories |
| Crdt.CrdtCounter.Increment | crates/omniagent-distributed/src/crdt.rs:139-142 | raises this node's entry by one |
| Crdt.CrdtCounter.Merge | crates/omniagent-distributed/src/crdt.rs:145-150 | pointwise maximum |
| Crdt.CrdtCounter.Value | crates/omniagent-distributed/src/crdt.rs:153-155 | the number of distinct increments seen |
| Crdt.CrdtSet.Add | crates/omniagent-distributed/src/crdt.rs:198-202 | adds unless removed before |
| Crdt.CrdtSet.Remove | crates/omniagent-distributed/src/crdt.rs:207-210 | removes for good |
| Crdt.CrdtSet.Merge | crates/omniagent-distributed/src/crdt.rs:217-232 | both unions, less everything removed on either side |
| Crdt.CrdtRegister.Set | crates/omniagent-distributed/src/crdt.rs:302-310 | value, timestamp and node become the new ones exactly when the new timestamp is later, or the same with a greater node |
| Crdt.CrdtRegister.Merge | crates/omniagent-distributed/src/crdt.rs:315-323 | value, timestamp and node become the other register's exactly when its timestamp is later, or the same with a greater node |
| Crdt.BelowIsInclusion | crates/omniagent-distributed/src/crdt.rs:66-95 | the pointwise order, missing entries read as 0, is inclusion of increments |
| Crdt.MergedIsJoin | crates/omniagent-distributed/src/crdt.rs:52-57 | merging clocks gives the least upper bound |
| Crdt.LatestCommutesExactly | crates/omniagent-distributed/src/crdt.rs:315-323 | merging two registers gives the same either way exactly when they are equal or their stamps differ |
| Crdt.GreatestIsLatest | crates/omniagent-distributed/src/crdt.rs:302-323 | the write kept is the one no other exceeds in time, nor in node at the same time |
| Crdt.SurvivesStartExactly | crates/omniagent-distributed/src/crdt.rs:302-323 | a write survives an empty start either way exactly when its stamp exceeds it: a positive time, or a writer above the node |
| Replication.RunKeeps | crates/omniagent-distributed/src/crdt.rs:46-323 | in every state of every run with lost, repeated and reordered snapshots, each copy is the one its causal past determines |
| Replication.PastsGrow | crates/omniagent-distributed/src/crdt.rs:46-323 | what each operation adds to its node's past: its own update, or everything in the delivered snapshot's; nothing changes elsewhere |
| Replication.Convergence | crates/omniagent-distributed/src/crdt.rs:139-323 | copies that saw the same updates are equal |
| Replication.StateFromPast | crates/omniagent-distributed/src/crdt.rs:139-323 | in any run, counter, set and register read off the past: increments, added minus removed, and a write of the past that no other exceeds in timestamp, nor in node at the same timestamp |
| Replication.ClocksTellCausality | crates/omniagent-distributed/src/crdt.rs:46-95 | an outcome is right for two clocks exactly when it is right for the inclusion of the increments in their pasts, and only one is |
| Causality.SeenWithAll | crates/omniagent-distributed/src/crdt.rs:46-66 | in any run, whoever has an increment in its past has in it everything its node had seen when it made it, updates of all kinds included |
| Causality.PastIsHistory | crates/omniagent-distributed/src/crdt.rs:46-66 | an increment is in another's past exactly when a chain of operations at one node and deliveries leads from it to the other |
| Causality.ClocksTellPrecedence | crates/omniagent-distributed/src/crdt.rs:46-95 | one increment happens before another, through such a chain, exactly when its clock lies below the other's, and exactly when the entry of its own node does |
| Causality.ComparedExactly | crates/omniagent-distributed/src/crdt.rs:69-95 | comparing the clocks of two increments: before, after and concurrent are right exactly when the chains say so, equal exactly for one and the same increment |
| Replication.IncrementsAreNew | crates/omniagent-distributed/src/crdt.rs:46-142 | no copy anywhere has seen a new increment before |
| Replication.MergeLaws | crates/omniagent-distributed/src/crdt.rs:145-323 | merging is commutative, associative and idempotent on the copies of a run |
| Replication.WriteHeldExactly | crates/omniagent-distributed/src/crdt.rs:302-323 | in any run, the greatest write a copy has seen is the one it holds exactly when its stamp exceeds every empty start that was merged in |
| Replication.RegisterConvergence | crates/omniagent-distributed/src/crdt.rs:302-323 | registers that saw the same writes agree if some write exceeds every empty start they met, as any write at a positive time does |
| HashStream.SplitIrrelevant | crates/omniagent-security/src/crypto.rs:58-110 | however a message is split into updates, the digest is the SHA-256 of the whole |
| HashStream.ResultIsSha256 | crates/omniagent-security/src/crypto.rs:73-110 | a hasher fed a message gives its SHA-256 |
| HashStream.Hash.Update | crates/omniagent-security/src/crypto.rs:58-68 | buffers, counts and compresses whole blocks |
| HashStream.Hash.Finalize | crates/omniagent-security/src/crypto.rs:73-110 | the digest of what was fed, leaving the hasher as it was |
| HashStream.Hash.HashOf | crates/omniagent-security/src/crypto.rs:113-117 | the one-shot digest is SHA-256 |
| HashStream.Hash.PadBuffer | crates/omniagent-security/src/crypto.rs:79-89 | the padding of section 5.1.1 of FIPS 180-4, whose bytes Sha256Laws.PaddingExactly gives |
| Sha256Laws.InitialExactly | crates/omniagent-security/src/crypto.rs:20-23 | the eight words of the initial state are, in order, from the square roots of 2, 3, 5, 7, 11, 13, 17 and 19 |
| Sha256Laws.PaddingExactly | crates/omniagent-security/src/crypto.rs:79-89 | 80, zeros, and eight bytes that spell the low 64 bits of the bit length, most significant first; together they fill the last block |
| Sha256Laws.EightBytesSpell | crates/omniagent-security/src/crypto.rs:88-89 | the length field, read most significant byte first, is the bit length modulo 2^64 |
| Sha256Laws.DigestExactly | crates/omniagent-security/src/crypto.rs:98-102 | the digest's eight groups of four bytes spell the eight words of the state in order |
| Sha256Laws.ScheduleExactly | crates/omniagent-security/src/crypto.rs:122-142 | the first 16 schedule words spell the block, each later one is the sum modulo 2^32 of the four earlier ones the standard names |
| Sha256Laws.RoundExactly | crates/omniagent-security/src/crypto.rs:155-173 | one round, by sums of whole numbers reduced once modulo 2^32 |
| Sha256Laws.ChoiceAndMajority | crates/omniagent-security/src/crypto.rs:157-163 | each bit of Ch is chosen by the first word's, each bit of Maj is the majority |
| Sha256Laws.SigmaBits | crates/omniagent-security/src/crypto.rs:133-162 | each bit of the four sigma functions is the parity of the three bits the standard names |
| Sha256Laws.SumExactly | crates/omniagent-security/src/crypto.rs:175-183 | the outcome of a block is added to the state word by word, modulo 2^32 |
| HashStream.Hash.ProcessBlock | crates/omniagent-security/src/crypto.rs:120-183 | one block of section 6.2.2 of FIPS 180-4 |
| HashStream.SigmasByShifts | crates/omniagent-security/src/crypto.rs:133-160 | the rotations by shifts are the standard's rotations, turn by turn |
| Bits.RotrIsTurns | crates/omniagent-security/src/crypto.rs:187-189 | two shifts and an or turn a word right by n bits |
| Bits.BitByBit | crates/omniagent-security/src/crypto.rs:154-161 | and, or and exclusive or act on each bit |
| Streaming.FeedFed | crates/omniagent-security/src/crypto.rs:58-68 | feeding more data keeps whole blocks compressed and the rest buffered |
| Streaming.FinalFed | crates/omniagent-security/src/crypto.rs:79-96 | finishing processes the whole padded message, for any padding that depends on the length modulo the block size |
| Streaming.DrainIsBlocks | crates/omniagent-security/src/crypto.rs:63-67 | draining the buffer folds the compression over its whole blocks |
| Primes.EntriesPrime | crates/omniagent-security/src/crypto.rs:19-26 | the table behind the constants holds primes in ascending order |
| Primes.NoneSkipped | crates/omniagent-security/src/crypto.rs:19-26 | and skips none, so they are the first 64 |
| Fips180.RoundConstantFromPrime | crates/omniagent-security/src/crypto.rs:26-43 | each round constant is the fractional part of the cube root of the table's prime |
| Fips180.InitialValueFromPrime | crates/omniagent-security/src/crypto.rs:20-23 | each initial word is the fractional part of the square root of the table's prime |
| Fips180.ZeroCountLeast | crates/omniagent-security/src/crypto.rs:82-85 | the loop appends the least number of zeros that leaves room for the length |
| Fips180.WordBytesRoundTrip | crates/omniagent-security/src/crypto.rs:101 | a word's big-endian bytes give the word back |
| Region.AlignUpLeast | crates/omniagent-memory/src/lib.rs:987-989 | the mask gives the least multiple not below the address |
| Region.PowerOfTwoExactly | crates/omniagent-memory/src/lib.rs:860-862 | the alignments accepted are exactly the powers of two |
| Region.FirstFitCorrect | crates/omniagent-memory/src/lib.rs:866-911 | on disjoint nonempty blocks, for any power of two as alignment and any region size: unless the scan leaves its range, it finds the least aligned offset where the request fits, or there is none |
| Region.AlwaysRightExactly | crates/omniagent-memory/src/lib.rs:866-911 | the scan is right for every nonempty 64-bit request exactly when every gap, aligned up, is open |
| Region.OrderlyOpen | crates/omniagent-memory/src/lib.rs:866-896 | blocks and a region of one alignment leave every gap open |
| Region.MemoryRegion.Allocate | crates/omniagent-memory/src/lib.rs:858-911 | for nonempty requests of any alignment the blocks stay disjoint and inside and `used` stays their total; a success is the least offset at which the request fits that is a multiple of the requested alignment and of the region's own, refusal means there is none, and overflow, the only other outcome, does not happen while gaps are open or one alignment is shared |
| Region.FitsBothExactly | crates/omniagent-memory/src/lib.rs:864 | being aligned to the larger of two powers of two is being a multiple of both |
| Region.MemoryRegion.Deallocate | crates/omniagent-memory/src/lib.rs:914-934 | releases exactly a live block of this address and size, lowers `used` by it and keeps the rest in order |
| Region.ReleaseUndoes | crates/omniagent-memory/src/lib.rs:877-934 | releasing what was just allocated restores the live blocks and `used` |
| Region.InRangeExactlyWhenOpen | crates/omniagent-memory/src/lib.rs:872-896 | on blocks inside the region, the scan stays in range for all nonempty 64-bit requests exactly when every gap is open; a request for the whole region tells |
| Region.MixedAlignmentOverflows | crates/omniagent-memory/src/lib.rs:875-876 | two blocks and an alignment for which the gap is negative |
| Quantiser.HalfStepExactly | crates/omniagent-memory/src/lib.rs:158-233 | the half-step error bound holds for all values exactly when zero is in or near the range |
| Quantiser.RoundTripExactly | crates/omniagent-memory/src/lib.rs:198-233 | codes survive a round trip exactly when zero is less than half a step outside the range |
| Quantiser.QuantizeMonotone | crates/omniagent-memory/src/lib.rs:199-214 | greater values get no smaller codes |
| Quantiser.ZeroInRange | crates/omniagent-memory/src/lib.rs:158-233 | for min <= 0 <= max the half-step bound holds and every code, 0 to 15, -128 to 127 or 0 to 255, survives the round trip |
| Quantiser.ErrorBound | crates/omniagent-memory/src/lib.rs:158-233 | for a range around zero, a value in it comes back with an error of at most half a fifteenth of the range, or half a 255th for the eight-bit types |
| Quantiser.CodesInRange | crates/omniagent-memory/src/lib.rs:198-214 | codes are 0 to 15, -128 to 127 or 0 to 255 |
| Quantiser.OutsideValues | crates/omniagent-memory/src/lib.rs:199-200 | values outside the range get the codes of its ends |
| Quantiser.NarrowRange | crates/omniagent-memory/src/lib.rs:160-164 | a range narrower than 2^-23 is replaced by one of width two around its start |
| TensorLayout.SliceLayout | crates/omniagent-memory/src/lib.rs:711-731 | a slice has product-of-extents elements, each the source element at the shifted multi-index, for any rank |
| TensorLayout.ExtractSlice | crates/omniagent-memory/src/lib.rs:711-731 | the recursion appends exactly that slice |
| TensorLayout.Slice | crates/omniagent-memory/src/lib.rs:606-636 | succeeds exactly on valid ranges, and gives the slice with its extents |
| TensorLayout.Transpose | crates/omniagent-memory/src/lib.rs:582-603 | succeeds exactly on matrices, and moves entry (i, j) to (j, i) |
| TensorLayout.TransposeTwice | crates/omniagent-memory/src/lib.rs:582-603 | transposing twice restores the data |
| TensorLayout.Concat | crates/omniagent-memory/src/lib.rs:639-697 | succeeds exactly on compatible operands; summed axis, data joined in order |
| ConcatLayout.SliceIsStrips | crates/omniagent-memory/src/lib.rs:711-731 | slicing a range of one axis gives strips of the data at regular distances, for any axis and rank |
| ConcatLayout.RecoveredExactly | crates/omniagent-memory/src/lib.rs:606-697 | along any axis, operands of given shapes come out of their concatenation whole, whatever their elements, exactly when there is at most one position before the axis or at most one operand has data |
| ConcatLayout.Unrecovered | crates/omniagent-memory/src/lib.rs:684-696 | otherwise, elements for which one does not |
| ConcatLayout.ConcatRecovers | crates/omniagent-memory/src/lib.rs:606-697 | slicing an axis-0 concatenation at an operand's rows recovers that operand |
| Knowledge.AddedIndexed | crates/omniagent-learning/src/lib.rs:326-342 | adding a triple keeps the index equal to a scan |
| Knowledge.KnowledgeGraph.AddTriple | crates/omniagent-learning/src/lib.rs:326-342 | appends the triple and indexes both roles |
| Knowledge.PositionsExactly | crates/omniagent-learning/src/lib.rs:329-339 | a position is indexed for an entity exactly when the triple there involves it |
| Knowledge.PositionsCounted | crates/omniagent-learning/src/lib.rs:329-339 | once per role, so twice for a self-loop |
| Knowledge.EntitiesExactly | crates/omniagent-learning/src/lib.rs:444-446 | the index knows exactly the entities some triple involves |
| Knowledge.IndexIsScan | crates/omniagent-learning/src/lib.rs:345-355 | reading the indexed positions is scanning for mentions |
| Knowledge.MentionsExactly | crates/omniagent-learning/src/lib.rs:345-355 | the triples found are exactly those with the entity as subject or object |
| Knowledge.KnowledgeGraph.QuerySubject | crates/omniagent-learning/src/lib.rs:345-355 | the same triples, in the same order, as a full scan for either role |
| Knowledge.KnowledgeGraph.RelatedEntities | crates/omniagent-learning/src/lib.rs:404-421 | exactly the other entities that share a triple with this one |
| Knowledge.KnowledgeGraph.Merge | crates/omniagent-learning/src/lib.rs:424-436 | takes in the other graph's triples one by one, skipping known keys, with the index kept exact |
| Knowledge.MergedKeys | crates/omniagent-learning/src/lib.rs:424-436 | merging keeps what was there and gives the union of the keys |
| Knowledge.MergedNext | crates/omniagent-learning/src/lib.rs:424-436 | a triple is taken in exactly when no earlier one on either side has the same subject, relation and object |
| Knowledge.MergeTwice | crates/omniagent-learning/src/lib.rs:424-436 | repeating a merge adds nothing |
| Knowledge.MergedDistinct | crates/omniagent-learning/src/lib.rs:424-436 | merging brings in no duplicate key |
| Memories.MemoryStore.Store | crates/omniagent-learning/src/lib.rs:118-137 | a new id, the entry under it, and its tier's list extended |
| Memories.MemoryStore.Delete | crates/omniagent-learning/src/lib.rs:184-192 | the entry and its id are gone from everywhere |
| Memories.MemoryStore.Consolidate | crates/omniagent-learning/src/lib.rs:197-220 | exactly the short-term memories of at least the given importance become long-term, in order, and are counted; the others stay as they are |
| Memories.MemoryStore.CleanupExpired | crates/omniagent-learning/src/lib.rs:223-240 | exactly the memories whose expiry time has come go, in whatever order they are met, and are counted; the others stay as they are |
| Memories.TierCounts | crates/omniagent-learning/src/lib.rs:243-246 | a tier's list has as many ids as there are entries of that type |
| Memories.PromotedLong | crates/omniagent-learning/src/lib.rs:209-219 | the long-term list stays exact and free of duplicates when memories move |
| Memories.WithoutAll | crates/omniagent-learning/src/lib.rs:231-238 | deleting ids one after another is deleting them all |

## Left out

- Vfs.VirtualFileSystem.InitRoot: keeps the invariant only on a new file system; a second call would replace the root and orphan everything below it.
- Vfs.VirtualFileSystem.Seek: 64-bit wrap-around of the sums is that of a release build; a debug build stops instead.
- Vfs.VirtualFileSystem.Write: file sizes are not bounded by memory.
- Region.MemoryRegion.Allocate: zero-size requests are specified exactly, but disjointness and optimality are claimed for nonempty ones.
- TensorLayout.Slice: assumes data of the length the shape says.
- TensorLayout.Transpose: assumes data of the length the shape says.
- Quantiser.HalfStepExactly: real arithmetic in place of 32-bit floats, so float rounding is not modelled.
- HashStream.ResultIsSha256: messages of 2^64 bits and more, which FIPS 180-4 excludes too; the bit length wraps there (see Streaming.FinalFed).
- Memories.MemoryStore.Consolidate: importance is a real number, so NaN scores are not modelled.
- Task payloads, result texts, workflow variables and parameters, retry delays, pausing, resuming and cancelling, triggers, `get_task_mut`, and the in-degree pass that the code discards before recomputing.
- Timestamps, permissions, the unenforced `EXCLUSIVE` flag, file-system statistics, listing and `stat`, the fixed-size descriptor width, error texts, and the per-agent forwarding layer.
- Conditions of access rules, which the engine does not evaluate either, and the times and reason texts of audit entries.
- Quantisation types B1, F16, F32 and Mixed, bit conversions, tensor storage formats, `compact`, fragmentation and utilisation figures, memory pools.
- Registers created with a value, generation of node ids and the message bus; overflow of 64-bit clock and counter entries.
- Embeddings and similarity search, keyword and tag search, path queries, learning sessions.
- The kernel, desktop, network, inference, driver and virtualisation crates, which are stubs, hardware access or single-branch logic.
