# SGLang: routing tree, front end and small concurrent cores, modelled in Dafny

This project models the parts of SGLang whose correctness is hardest to see from one function at a time, and proves
what they are for. `dafny verify dfyconfig.toml` checks all of it.

- **The multi-tenant radix tree** (`sgl-router/src/tree.rs`). `RadixTree.Tree` is the heap-allocated tree: nodes with
  children maps, texts, parent links and owners that are updated in place. Its value (`Abs`) maps the string spelled
  from the root to each node to that node's owners and their timestamps. `RadixSpec`, `RadixSteps`, `RadixEviction`,
  `RadixEvictionRuns` and `RadixTraversal` are about that value; `RadixRuns` is about every sequence of operations.
  `View(M, s)` is who holds the string `s`, `Held(M, t)` is the prefix-closed set of strings of tenant `t`.
- **The cache-aware router on top of it** (`sgl-router/src/router.rs`): `CacheAwareRouter.Router`, with its policy in
  `Routing`, the drift of the request counts in `LoadBound`, and a driver that reaches the bound in `TightBound`.
- **The front end** (`python/sglang/lang`): the stream executor (`Interpreter`, specified by `Execution`, with what that
  means for texts, messages and variables in `ExecutionLaws`), the tracer that extracts a constant prefix (`Tracer`,
  specified by `Tracing`, with when and what it extracts in `TracingLaws`), the graph builder and sorter of the compiler
  (`Compiler`, specified by `Dependencies`), and compiled programs running on several executors: `CompiledRun` for any
  list of nodes that generates variables before they are read, `CompiledProgram` for the lists that compilation makes.
- **A readers-writer lock** (`RwLock`), **two parallel store kernels** against their sequential reference (`TokenPool`),
  **greedy choice selection** (`Choices`) and **image padding geometry** (`ImageGeometry`).

How to read the contracts. A method that changes an object states its new value as a function or relation of its old
value; the lemmas are about those functions and relations, for all inputs and all runs. `Tree.Valid` and `Router.Valid`
are the representation invariants that every operation keeps. Where a method takes ghost parameters
such as `M`, `k` or `was`, they are the values of the tree and of its counters before the call; the ghost result `M` of
`Router.SelectWorker` is the value of the tree between its lookup and its insertion; `t` in `RwLock.Lock` is
the task whose turn it is.

What was found to hold only under a condition is stated with the condition:

- A selection panics exactly when no worker is known, or when the loads are balanced, the match is not close, every
  counter is out of range and no worker has the placeholder's name "empty" (`Router.SelectWorker`,
  `Routing.ChoiceIsKnown`; a router without workers in `CacheAwareRouter.NobodyToSelect`).
- Removing a worker leaves list and counters in agreement exactly when the worker was listed once before
  (`Router.RemoveWorker`; a worker listed twice in `CacheAwareRouter.DuplicateStaysListed`).
- Extracting a prefix succeeds exactly when every wrong statement (the end of a scope, a role inside a role, a reading of
  a name that means nothing) comes after one that ends the tracing (`TracingLaws.ExtractsExactly`).
- The traced prefix starts every run exactly when nothing adds constant text to the trace from the first statement on
  that reads a bound argument as a variable (`Tracing.PrefixIsShared`; a failing program in
  `Tracing.BoundRecallBreaks`).
- A speculative generation keeps the requested token limit, counted in characters as the code does, exactly under the
  condition of `Execution.LimitIsKept`. It fails when the first stop string comes beyond the limit, in the reply or in
  what was left of an earlier one (`Execution.LimitIsExceeded`), and when a reply without a stop string is cut at the
  raised limit (`Execution.LimitIsRaised`).
- A speculative generation does without the backend exactly when the buffer is long enough, or not empty if there are
  stop strings (`ExecutionLaws.BufferSparesBackend`).
- A choice made while the speculation buffer is in use invalidates the buffer unless nothing is chosen
  (`Execution.SelectSpeculates`; a generation that writes stale text in `Execution.ChoiceGoesStale`).
- The topological sort emits every node exactly when the graph has no cycle
  (`Compiler.CompiledFunction.TopologicalSort`). There is none when names that are read lead to older expressions
  (`Dependencies.OlderIsAcyclic`), and in a program of one stream only then (`Dependencies.OneStreamIsAcyclic`): a name
  that is generated again after it was read makes the sort drop everything from the reading on
  (`Dependencies.RegeneratedIsDropped`).
- Cancelling a waiting writer loses a wake-up exactly when it was the last writer for whom readers sleep
  (`RwLock.CancellationLosesWakeup`; a stranded reader is shown by `RwLock.StrandedReader`).
- The grid kernel agrees with the sequential loop exactly when the grid covers the longest extension
  (`TokenPool.GridKernelAgrees`).
- Unpadding gives back exactly the pasted image only for one parity of the remainder
  (`ImageGeometry.UnpadInvertsPad`; a line too much and a line too few in `ImageGeometry.UnpadMissesPad`).

Where the code and its comments disagree the code is followed: the router's comment calls `max_tree_size` a number of
nodes (`sgl-router/src/router.rs:81-83`), but the tree compares it with a number of characters per tenant. The
description of `unpad_image` calls the original size (height, width), but the code takes (width, height)
(`python/sglang/srt/mm_utils.py:270-275`).

## Model

| member | source | states |
|---|---|---|
| RadixTree.SharedPrefixCount | sgl-router/src/tree.rs:63-78 | the loop returns the length of the longest common prefix |
| RadixTree.Tree.constructor | sgl-router/src/tree.rs:93-103 | the empty tree satisfies the representation invariant |
| RadixTree.Tree.Insert | sgl-router/src/tree.rs:105-247 | every prefix of the text is held by the tenant since now, nobody else's strings or times change, node names are the old ones plus the text and the points where it leaves them, all representation invariants and counts survive |
| RadixTree.Tree.InsertRound | sgl-router/src/tree.rs:126-244 | one round (new leaf, cut edge, or walk on) extends what has been inserted so far to the next node on the way |
| RadixSteps.StampedHeld | sgl-router/src/tree.rs:105-247 | an insertion is set insertion: the tenant's strings gain exactly the prefixes of the text, other tenants' stay the same |
| RadixSteps.ChargedCounted | sgl-router/src/tree.rs:155-159 | charging a new owner for exactly the characters of its segment keeps every count equal to the number of strings held |
| RadixTree.Tree.PrefixMatch | sgl-router/src/tree.rs:250-316 | returns the longest prefix of the text that any tenant's strings share and a tenant that holds it; only that tenant's times on the way change |
| RadixTree.Tree.PrefixMatchTenant | sgl-router/src/tree.rs:320-383 | returns the longest prefix of the text that the tenant holds; only its times on the way change |
| RadixSteps.StampPathStamped | sgl-router/src/tree.rs:301-312 | the upward walk stamps exactly the strings on the way and keeps ownership closed under ancestors |
| RadixTree.Tree.LeafOf | sgl-router/src/tree.rs:385-406 | the tenants returned are exactly those that own the node and nothing below it |
| RadixTree.Tree.EvictTenantBySize | sgl-router/src/tree.rs:408-479 | terminates with every count within the limit; the tree is what a run of evictions makes of it, each of which took the oldest leaf of all tenants over the limit |
| RadixTree.PopOldest | sgl-router/src/tree.rs:33-57 | the heap hands out a candidate with the smallest timestamp |
| RadixEvictionRuns.LeafLruIsGlobalLru | sgl-router/src/tree.rs:436-479 | when timestamps never increase towards the leaves, the oldest leaf is the oldest of all nodes of tenants over the limit |
| RadixEvictionRuns.RunKeeps | sgl-router/src/tree.rs:436-477 | an eviction pass keeps the representation invariant, the order of timestamps and the tenants known at the root |
| RadixEvictionRuns.RunOnlyTakes | sgl-router/src/tree.rs:436-477 | nobody gains a string, and what is kept keeps its time |
| RadixEvictionRuns.RunSparesSmall | sgl-router/src/tree.rs:439-443 | a tenant within the limit loses nothing |
| RadixEvictionRuns.RunTakesOldest | sgl-router/src/tree.rs:436-477 | everything a tenant loses is at most as recent as everything it keeps |
| RadixEvictionRuns.RunTakesNoMoreThanNeeded | sgl-router/src/tree.rs:439-457 | the last piece a tenant lost was taken while it was still above the limit |
| RadixEvictionRuns.QueueAdvances | sgl-router/src/tree.rs:467-478 | pushing the parent when it has become a leaf keeps every leaf of every tenant over the limit in the heap |
| RadixEviction.RemoveOwnerHeld | sgl-router/src/tree.rs:445-465 | giving up a leaf takes exactly the characters that the count is reduced by |
| RadixTree.Tree.RemoveTenant | sgl-router/src/tree.rs:487-525 | the tenant disappears from every node and from the counts; a node goes away exactly when it was its only owner |
| RadixEvictionRuns.RemovedSound | sgl-router/src/tree.rs:487-525 | other tenants' strings and counts are untouched by a removal, and the invariant survives it |
| RadixTree.Tree.GetSmallestTenant | sgl-router/src/tree.rs:534-556 | a tenant with the smallest count, or the placeholder when there is none in range |
| RadixTree.Tree.GetUsedSizePerTenant | sgl-router/src/tree.rs:558-580 | the sizes recomputed by visiting every node are the maintained counts, for every tenant of every valid tree |
| RadixTraversal.SizesAreCounts | sgl-router/src/tree.rs:558-580 | adding up node texts over all nodes counts every held string once |
| RadixTraversal.FrontierStep | sgl-router/src/tree.rs:558-580 | a traversal with a stack visits every node exactly once |
| RadixRuns.ReachedIsTimed | sgl-router/src/tree.rs:111-117 | in every run of operations whose clock never goes back, no node is newer for a tenant than an ancestor of it |
| RadixRuns.HeldWasInserted | sgl-router/src/tree.rs:105-525 | over whole runs a tenant holds only prefixes of texts inserted for it since its last removal, and all prefixes of those inserted since the last eviction |
| RadixRuns.InsertedIsFound | sgl-router/src/tree.rs:320-383 | what was inserted for a tenant is matched in full until an eviction or its removal |
| RadixRuns.RunsEvictOldest | sgl-router/src/tree.rs:436-477 | in every run with a clock that never goes back, each eviction takes the oldest node of all tenants over the limit |
| RadixRuns.RunsLoseOldest | sgl-router/src/tree.rs:436-477 | in every such run, nothing a tenant loses is newer than anything it keeps |
| RadixRuns.StepRootOwners | sgl-router/src/tree.rs:116-121 | which tenants the root knows after each operation |
| CacheAwareRouter.Router.constructor | sgl-router/src/router.rs:130-169 | counters and tree know exactly the initial workers, all counts are zero, and distinct workers give a consistent router |
| CacheAwareRouter.Router.SelectWorker | sgl-router/src/router.rs:376-431 | returns exactly when a worker is choosable; the worker is listed and least loaded while the loads are imbalanced; otherwise it holds every held prefix of the text that makes up more than the threshold, and has the smallest count when there is none; its counters go up by one and no others, and the tree has been looked up now and has learned the text at the later time |
| CacheAwareRouter.Router.AddWorker | sgl-router/src/router.rs:595-628 | a listed worker is refused without effect; any other gets zero counts and the empty text in the tree, and all other counts and strings stay; consistency survives |
| CacheAwareRouter.Router.RemoveWorker | sgl-router/src/router.rs:663-701 | the first entry of that name goes and everything known about it, and all other counts and strings stay; list and counters still agree exactly when the name was listed once before |
| CacheAwareRouter.DuplicateStaysListed | sgl-router/src/router.rs:130-169 | a router built with a worker listed twice still lists it, without a counter, after it is removed |
| CacheAwareRouter.NobodyToSelect | sgl-router/src/router.rs:376-431 | a selection among no workers panics |
| CacheAwareRouter.Router.Evict | sgl-router/src/router.rs:147-164 | an eviction round never makes the router forget a worker |
| CacheAwareRouter.Router.Complete | sgl-router/src/router.rs:479-486 | a finished response lowers the worker's count, never below zero, and does nothing for an unknown worker |
| CacheAwareRouter.Router.CompleteStream | sgl-router/src/router.rs:500-511 | the end of a stream panics exactly when its worker has been removed |
| CacheAwareRouter.MaxLoad | sgl-router/src/router.rs:383 | the highest count, zero without workers |
| CacheAwareRouter.LeastLoaded | sgl-router/src/router.rs:401-406 | a worker with the lowest count |
| Routing.ChoiceIsKnown | sgl-router/src/router.rs:407-421 | a choice by the tree is a known worker exactly when there are workers and a close match or an unspent counter decides |
| Routing.ChoiceIsDecided | sgl-router/src/router.rs:407-421 | what the threshold decides: the choice holds every held prefix that makes up more of the text, and has the smallest count when no held prefix does |
| Routing.RepeatGoesToHolder | sgl-router/src/router.rs:408-428 | while the loads are balanced, a text is sent again only to workers that hold all of it |
| Routing.Counters.SelectingAgrees | sgl-router/src/router.rs:421-427 | processed counts remain the number of selections since the worker was added |
| LoadBound.LoadsStayClose | sgl-router/src/router.rs:382-421 | in every run of selections from idle workers the loads stay within one of the absolute or of the relative threshold |
| LoadBound.ImbalancedKeepsHighest | sgl-router/src/router.rs:389-406 | a selection made while imbalanced never raises the highest load |
| LoadBound.BoundIsReached | sgl-router/src/router.rs:389-421 | neither part of the bound can be improved: every pair of loads within it is reached from two idle workers, when any worker may be picked while balanced |
| TightBound.BoundIsReachedByRouter | sgl-router/src/router.rs:376-431 | the same by requests to a new router with a match threshold below one, with the choices that its tree makes |
| Interpreter.StreamExecutor.Execute | python/sglang/lang/interpreter.py:366-406 | executing an expression changes text, variables, messages, role and buffer as specified, up to the point of an exception; without choices the speculation buffer stays consistent |
| Interpreter.StreamExecutor.ExecuteFill | python/sglang/lang/interpreter.py:408-425 | constant text consumes a buffer that starts with it and drops any other |
| Interpreter.StreamExecutor.SpecGen | python/sglang/lang/interpreter.py:446-494 | completion and remaining buffer are the buffer, refilled by the backend only when needed; text, completion and buffer continue the last reply |
| Interpreter.StreamExecutor.FindStop | python/sglang/lang/interpreter.py:462-473 | the loop over the stop strings finds the earliest occurrence of any of them |
| Interpreter.StreamExecutor.ExecuteRoleBegin | python/sglang/lang/interpreter.py:565-581 | a nested role raises without effect; the first role is preceded by the default system message |
| Interpreter.StreamExecutor.ExecuteRoleEnd | python/sglang/lang/interpreter.py:583-617 | the role's suffix is appended and its text recorded as a message |
| Lang.FirstStop | python/sglang/lang/interpreter.py:462-473 | the earliest place where any stop string occurs, none exactly when none occurs |
| Lang.FindFrom | python/sglang/lang/interpreter.py:462-473 | the first occurrence of a string |
| Lang.LStripStrips | python/sglang/lang/interpreter.py:593 | exactly the leading spaces are removed |
| ExecutionLaws.ConversationWritesPrompt | python/sglang/lang/chat_template.py:41-53 | executing a conversation turn by turn writes what the template makes of its messages at once, with the default system message in front if the first turn wants it, and records the messages |
| ExecutionLaws.OrdinaryTurn | python/sglang/lang/chat_template.py:20-39 | a turn adds its text between the two texts of its role, or alone for an unknown role, everywhere but where a template of the style of Llama 2 starts with a system message or has a user message in second place |
| ExecutionLaws.SystemInsideUser | python/sglang/lang/chat_template.py:25-37 | in the style of Llama 2 a leading system message follows the opening text of the user, which a user message after it leaves out |
| ExecutionLaws.SecondIsUser | python/sglang/lang/chat_template.py:32-37 | in that style a user message in second place has no opening text, whatever comes first |
| ExecutionLaws.TurnSaysItsText | python/sglang/lang/interpreter.py:565-617 | a role around any expression without roles puts its two texts around what the expression writes and records that as a message, stripped |
| ExecutionLaws.RoleWrites | python/sglang/lang/interpreter.py:565-617 | a role in an empty stream writes its opening text, its content and its closing text |
| ExecutionLaws.DefaultComesFirst | python/sglang/lang/interpreter.py:568-574 | the first role of another kind is preceded by the default system message between the texts of the system role |
| ExecutionLaws.SystemInsideUserWrites | python/sglang/lang/chat_template.py:25-37 | the text of a system and a user turn in the style of Llama 2 |
| ExecutionLaws.NestedRoleRaises | python/sglang/lang/interpreter.py:566 | a role inside a role raises where it begins |
| ExecutionLaws.ScopeHoldsItsText | python/sglang/lang/interpreter.py:619-624 | after a scope its variable holds exactly what was written inside, whatever that was, unless something inside assigns it |
| ExecutionLaws.OnlyOpenScopesEnd | python/sglang/lang/interpreter.py:622-624 | ending a scope raises exactly when it is not open |
| ExecutionLaws.GenStoresItsText | python/sglang/lang/interpreter.py:496-521 | a generation stores exactly what it appends and changes nothing else but the buffer |
| ExecutionLaws.ChoiceStoresItsText | python/sglang/lang/interpreter.py:547-558 | a choice appends the answer, and stores it if it has a name; buffer, roles and other variables stay |
| ExecutionLaws.FillTakes | python/sglang/lang/interpreter.py:420-425 | constant text that the buffer begins with is taken from it, other text empties it |
| ExecutionLaws.ResolveOverrides | python/sglang/lang/interpreter.py:663-708 | overrides win over defaults, and the stop strings of the template are added; it fails exactly when there is nothing to add them to |
| ExecutionLaws.OnlyOneRequest | python/sglang/lang/interpreter.py:446-488 | a generation depends on the answer to a single request, whose parameters are given |
| ExecutionLaws.BufferSparesBackend | python/sglang/lang/interpreter.py:475-488 | when speculation does without the backend, and that the backend then makes no difference |
| ExecutionLaws.LimitIsReached | python/sglang/lang/interpreter.py:475-479 | without stop strings speculation writes exactly the limit, or all there is |
| ExecutionLaws.StopsAreRespected | python/sglang/lang/interpreter.py:480-490 | no stop string of the call or the template begins in what is written; if one occurs, what is left begins with a stop string |
| Execution.TextGrows | python/sglang/lang/interpreter.py:366-624 | no expression, completed or not, takes back text that was written |
| Execution.ExecContinues | python/sglang/lang/interpreter.py:408-494 | through any expression without choices, the buffer is empty or text and buffer are the text at the last backend call and its reply |
| Execution.ChoiceGoesStale | python/sglang/lang/interpreter.py:547-558 | a generation after a choice writes what was left of the reply to the text before the choice |
| Execution.GenSpeculates | python/sglang/lang/interpreter.py:446-521 | a speculative generation never writes beyond the reply to the last call, and the buffer remains what follows |
| Execution.SelectSpeculates | python/sglang/lang/interpreter.py:547-558 | a choice keeps the buffer valid exactly when the buffer is empty or nothing is chosen |
| Execution.CutIsEarliest | python/sglang/lang/interpreter.py:480-490 | a completion ends at the earliest stop string; without one in the buffer, at the token limit or the end of the buffer; without any asked for, at the requested limit or the end of the buffer |
| Execution.LimitIsKept | python/sglang/lang/interpreter.py:446-494 | when a speculative generation, fresh or from the buffer, adds no more characters than the requested limit |
| Execution.LimitIsExceeded | python/sglang/lang/interpreter.py:462-490 | a reply, and a buffer, with a stop string beyond the limit |
| Execution.LimitIsRaised | python/sglang/lang/interpreter.py:451-456 | a reply without a stop string that is cut at the raised limit |
| Tracing.PrefixIsShared | python/sglang/lang/tracer.py:33-55 | the traced prefix starts the text of a run, for any arguments and any backend, exactly when no statement adds constant text to the trace from the first reading of a bound argument as a variable on |
| Tracing.ExecCovered | python/sglang/lang/tracer.py:148-230 | expression by expression, what has been traced as constant text is what running has written, role texts and default system message included |
| Tracing.OpenAgrees | python/sglang/lang/chat_template.py:20-39 | tracing and running insert the same role prefixes and the same default system message |
| Tracing.ConstantProgramsAgree | python/sglang/lang/tracer.py:33-55 | a program traced to its end as constant text writes exactly that text |
| Tracing.PrefixIsLongest | python/sglang/lang/tracer.py:33-55 | with a generation as the first unknown, no longer text starts every run |
| Tracing.BoundRecallBreaks | python/sglang/lang/tracer.py:236-242 | a program whose traced prefix no run writes |
| TracingLaws.ExtractsExactly | python/sglang/lang/tracer.py:33-55 | there is a prefix exactly when every wrong statement of the program comes after one that ends the tracing |
| TracingLaws.ReadableHasPrefix | python/sglang/lang/tracer.py:236-242 | a program without wrong statements, whose readings name arguments or earlier generations and choices, has a prefix |
| TracingLaws.PrefixIsConstantText | python/sglang/lang/tracer.py:33-55 | the prefix is what executing the constant statements before the first other one writes, known arguments and roles included |
| TracingLaws.PrefixIsJoined | python/sglang/lang/tracer.py:48-55 | without roles it is those texts put together |
| TracingLaws.UnnamedIsNumbered | python/sglang/lang/tracer.py:188-192 | the first generation without a name is read back as gen_0, and by no other name |
| TracingLaws.ReadingRepeats | python/sglang/lang/interpreter.py:878-879 | reading back a generation writes its text again |
| TracingLaws.ArgumentIsWritten | python/sglang/lang/ir.py:389-393 | an argument is written where it is appended, exactly when it is given |
| Tracer.TracerProgramState.Execute | python/sglang/lang/tracer.py:148-177 | the tracer collects the specified nodes and names, stops or crashes on the specified expressions |
| Tracer.TracerProgramState.ExecuteRoleBegin | python/sglang/lang/tracer.py:202-219 | a nested role crashes the extraction; the default system message precedes the first role |
| Tracer.TracerProgramState.Prefix | python/sglang/lang/tracer.py:48-55 | the concatenation of the leading constant nodes |
| Tracer.ExtractPrefix | python/sglang/lang/tracer.py:33-55 | a prefix is extracted exactly when every wrong statement comes after one that ends the tracing; it starts every run of a program that reads no bound argument as a variable |
| Compiler.CompiledFunction.constructor | python/sglang/lang/compiler.py:24-30 | the sorted nodes are distinct, come after what they depend on, and are all that the last expression needs exactly when there is no cycle; they point to what they read, and numbered streams are told apart as before |
| Compiler.RenamePids | python/sglang/lang/compiler.py:67-70 | two expressions get the same number exactly when they had the same stream id |
| Compiler.CompiledFunction.BuildGraph | python/sglang/lang/compiler.py:32-70 | the nodes are exactly the expressions that the last one needs, each once, pointing to the nodes of what they depend on and to what depends on them |
| Compiler.CompiledFunction.TopologicalSort | python/sglang/lang/compiler.py:72-87 | every emitted node comes once and after its predecessor and its variable's source, also when they are the same node; all are emitted exactly when there is no cycle |
| Dependencies.TargetsCount | python/sglang/lang/compiler.py:43-64 | a node is recorded behind another once for each way in which it depends on it |
| Dependencies.ReleaseOne | python/sglang/lang/compiler.py:82-86 | counting down a successor never goes below zero, and queues it exactly when its last dependency is done |
| Dependencies.SortedAll | python/sglang/lang/compiler.py:80-87 | when the queue runs dry, everything is sorted exactly when some order respects all dependencies |
| Dependencies.OlderIsAcyclic | python/sglang/lang/compiler.py:54-58 | when every expression depends on older ones only, there is no cycle |
| Dependencies.OneStreamIsAcyclic | python/sglang/lang/compiler.py:54-58 | a program of one stream has a cycle exactly when some name that is read leads to the reading itself or to a later expression |
| Dependencies.RegeneratedIsDropped | python/sglang/lang/compiler.py:54-58 | a trace with a cycle: of a generation, its reading and another generation of the same name only the first is sorted |
| Dependencies.SortedAsTraced | python/sglang/lang/compiler.py:72-87 | a sorted order puts the expressions of each stream in the order in which they were traced |
| CompiledProgram.SortedIsWellFormed | python/sglang/lang/compiler.py:72-87 | a sorted order submits every generation before the nodes that read it, and none twice |
| CompiledProgram.Submit | python/sglang/lang/compiler.py:105-121 | the submission loop hands every sorted expression to its stream: constant text, the value of its argument, its generation or choice, or what its source's stream holds |
| CompiledProgram.CompiledNeverDeadlocks | python/sglang/lang/compiler.py:105-121 | for every sorted compiled program: whenever some executor's queue is not empty, the head of some queue can run |
| CompiledProgram.CompiledRunsAgree | python/sglang/lang/compiler.py:95-123 | every interleaving of the executors that cannot go on has executed every sorted expression, with the texts and variables of running them one by one |
| CompiledProgram.CompiledWaitsForSubmitted | python/sglang/lang/interpreter.py:259-262 | an executor only waits for a variable whose source has been submitted, so the lookup never misses its event |
| CompiledProgram.CompiledRunsMeanTraces | python/sglang/lang/compiler.py:95-123 | compilation preserves meaning: each stream ends with exactly the text and variables that one stream executor leaves when it executes the traced expressions of that stream one by one, arguments bound and readings replaced by what the stream of their source holds, in the order in which they were traced |
| CompiledRun.RunsEnd | python/sglang/lang/compiler.py:105-121 | every run ends after at most two steps for each node |
| RwLock.Lock.TryReader | python/sglang/srt/aio_rwlock.py:43-49 | in every reachable state a task becomes a reader exactly when no task writes or waits to write, and sleeps otherwise |
| RwLock.Lock.StartWriter | python/sglang/srt/aio_rwlock.py:59-70 | in every reachable state a task that asks for the lock becomes the writer exactly when no task holds it, and sleeps otherwise |
| RwLock.Lock.TryWriter | python/sglang/srt/aio_rwlock.py:63-70 | the same for a writer that was woken |
| RwLock.Lock.ReleaseReader | python/sglang/srt/aio_rwlock.py:51-57 | everybody is woken exactly when no other task reads |
| RwLock.Lock.ReleaseWriter | python/sglang/srt/aio_rwlock.py:72-76 | nobody holds the lock and nobody sleeps afterwards |
| RwLock.AlwaysExclusive | python/sglang/srt/aio_rwlock.py:43-76 | for any number of tasks and any schedule: never a writer with a reader or another writer, counters count, no wake-up is lost |
| RwLock.TurnKeeps | python/sglang/srt/aio_rwlock.py:43-76 | each turn of each task keeps exclusion, counts and wake-ups |
| RwLock.ReadersDrain | python/sglang/srt/aio_rwlock.py:43-49 | as long as some writer waits, the readers only become fewer |
| RwLock.FreeLockIsTaken | python/sglang/srt/aio_rwlock.py:43-76 | a free lock that somebody waits for can be taken by somebody on their next turn |
| RwLock.CancellationLosesWakeup | python/sglang/srt/aio_rwlock.py:59-70 | when cancelling a waiting writer loses a wake-up |
| RwLock.StrandedReader | python/sglang/srt/aio_rwlock.py:59-76 | a run after which a cancellation leaves a reader asleep on a free lock |
| TokenPool.Reference | benchmark/kernels/scheduler_batch/benchmark_write_req_to_token_pool_triton.py:92-112 | the sequential loop puts every token's location into its cell and touches no other |
| TokenPool.Program | benchmark/kernels/scheduler_batch/benchmark_write_req_to_token_pool_triton.py:12-46 | a program of the plain kernel fills exactly the cells of its request |
| TokenPool.ProgramOfGrid | benchmark/kernels/scheduler_batch/benchmark_write_req_to_token_pool_triton.py:49-89 | a program of the grid kernel fills exactly the cells of its block of its request |
| TokenPool.ProgramIsItsStores | benchmark/kernels/scheduler_batch/benchmark_write_req_to_token_pool_triton.py:12-89 | a program does to the table what its list of stores does |
| TokenPool.Batch.TargetByColumn | benchmark/kernels/scheduler_batch/benchmark_write_req_to_token_pool_triton.py:92-112 | column by column: a request's row holds the location of each of its new tokens at the token's position, and is otherwise as before |
| TokenPool.PlainKernelAgrees | benchmark/kernels/scheduler_batch/benchmark_write_req_to_token_pool_triton.py:12-46 | however the stores of all programs interleave, the table ends up exactly as the sequential loop leaves it |
| TokenPool.GridKernelAgrees | benchmark/kernels/scheduler_batch/benchmark_write_req_to_token_pool_triton.py:49-89 | the same for the grid kernel, exactly when the grid covers the longest extension |
| Choices.GreedySelection | python/sglang/lang/choices.py:97-104 | column by column with early exit, exactly the lexicographically largest rows remain, in order |
| Choices.Choose | python/sglang/lang/choices.py:58-85 | of the options, each extended by its mean to the length of the longest, the first of the lexicographically largest is chosen |
| Choices.BuildMatrix | python/sglang/lang/choices.py:87-95 | every row is its option, extended by its mean |
| Choices.PaddingKeepsMean | python/sglang/lang/choices.py:90-94 | extending a row by its mean keeps its mean |
| Choices.MeansAreWeighted | python/sglang/lang/choices.py:90-94 | the mean of one entry is the entry, and means of rows put together are weighted by their lengths |
| ImageGeometry.SameBranch | python/sglang/srt/mm_utils.py:91-102 | padding and unpadding look at the same side of the image |
| ImageGeometry.PadKeepsProportions | python/sglang/srt/mm_utils.py:91-110 | one side fills the target, the other is the smallest that keeps the proportions, and the image lies in the middle up to one line |
| ImageGeometry.UnpadInvertsPad | python/sglang/srt/mm_utils.py:275-292 | unpadding drops at most one image line at the leading edge and keeps at most one padding line at the trailing edge; the exact case |
| ImageGeometry.UnpadMissesPad | python/sglang/srt/mm_utils.py:275-292 | sizes for which a padding line is kept and for which the only image line is lost |
| ImageGeometry.UnpadShape | python/sglang/srt/mm_utils.py:295-316 | the announced shape is the shape of what is kept |

## Left out

- Locks inside the tree and the router (`DashMap`, `RwLock`, `Mutex`): the router serialises the calls, so operations
  are atomic steps; iteration order over a concurrent map is an arbitrary choice.
- Eviction's and removal's recursive or stack traversals share one traversal method (`RadixTree.Tree.Traverse`); the
  order in which it meets siblings is arbitrary.
- Machine integer overflow of counts and timestamps, floating-point rounding of thresholds, means and scales: natural
  and exact real numbers are used. The match rate of an empty text is not a number in the source and compares as false;
  the cross-multiplied comparison does the same.
- HTTP, health checks, retries, streaming bodies, the text extraction from requests, and the random and round-robin
  policies of the router: input and output around the modelled state changes.
- "Running count equals requests in flight" is not a property of the router: a connection error returns without lowering
  the count.
- What a router does after a selection panicked with its mutexes held.
- The Python reference tree (`scripts/playground/router/tree.py`): it reads the clock once per node, recomputes sizes
  and has one limit per tenant; it would repeat the tree above with easier bookkeeping.
- Image and video expressions, forks and joins of streams, and lazy commits: they add nothing to the properties above.
- Speculation on chat models, where generations are stored and executed when the role ends, and streaming generation.
- Lookups such as s[name] nested inside a larger expression: a program statement is either an expression of constants
  and arguments, a call that goes to the executor directly, or one lookup.
- A lookup of a variable whose scope is still open blocks forever in the source; here it ends the run.
- `flatten_nodes` of the tracer's node lists: the traced nodes are not nested, so it changes nothing.
- Overwriting the stream ids in the traced expressions (`python/sglang/lang/compiler.py:67-70`): the numbers are kept
  beside the expressions.
- Compiled programs with roles, forks, or unnamed generations or choices: role texts get no stream id, forks have no
  case in the interpreter, and what has no name is not stored under one.
- Exceptions of the backend, missing arguments and speculation while a compiled program runs: the backend answers every
  text, and arguments are strings that are given.
- An option without tokens in the choice selection: its mean is not a number.
- Messages without a content (`python/sglang/lang/chat_template.py:45-48`), which only requests from outside have, and
  the template tables, which are data.
- The inner mutex of the readers-writer lock: each segment between two waits is one step, as no segment yields.
