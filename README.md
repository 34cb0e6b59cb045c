# Cooperative task scheduler (src/tasks.c), modelled in Dafny

The scheduler keeps a singly linked list of tasks reached from the global
`tasks`, in creation order, and a one-slot pointer `current` naming the task
whose listener is running. Each task has:

- a period `millis`;
- a schedule (`TASK_SCHEDULE` for one-shot, anything else for repeating);
- an optional listener and an optional callback;
- a tick count `ticks` and a `running` flag.

The model covers four parts of the source:

- **Tick sweep** (the timer-compare interrupt). A task that is not running counts a tick. Once its count reaches its period, the count goes back to 0 and the task is marked running.
- **`Tasks_poll`**. It walks the list once. For each running task it invokes the listener, with the task as `current`. A one-shot task then has its callback invoked and is unlinked and freed. A repeating task is marked not running.
- **`Tasks_size`**. It counts the nodes in a 16-bit counter.
- **`Tasks_create`**. It appends a fresh idle node at the tail. If a task is current and still has a callback, the new task takes that callback instead of its own, and the current task loses it. This is callback inheritance.

The project is built as follows:

- **`types.dfy`** holds the task record and the other values.
- **`tick.dfy`** specifies one sweep (`TickTask`, `TickAll`) and proves how repeated sweeps behave.
- **`dispatch.dfy`** specifies a poll pass over the list as values. `PollFrom` folds `Step` over the list. It returns the tasks kept, the tasks created by listeners (they go to the tail), the listener and callback invocations, and the next free handle. The module also gives reference definitions that walk the list from the front (`Survivors`, `EventsOf`) and proves the pass, a fold from the back, against them. Finally it proves the dispatch properties:
  - the listener is invoked before the callback;
  - retired tasks never come back;
  - callback inheritance works as described above.
- **`links.dfy`** represents the heap of nodes as a map from handle to node. A handle stands for the address malloc returns. The ghost sequence `order` is the list as reached from `head`. The lemmas say what each link update (rewrite, append, unlink) does to that list.
- **`scheduler.dfy`** holds the class `TaskList`. Its fields are the node heap, `head` (`tasks`), `current`, the allocator's next handle and the trace of invocations. It keeps the source's loops:
  - the sweep;
  - the walk of `Tasks_poll` with its `node`/`last` pair;
  - the counting loop of `Tasks_size`;
  - the tail walk of `Tasks_create`.

  Each method is proved against the specification functions above. A listener is represented by the list of `Tasks_create` calls it makes (`Listener.spawns`), so that inheritance is exercised. `RunListener` makes those calls through `Create` while its task is `current`.

Two points of the code worth noting:

- The sweep counts a tick only for a task that is not already running. The short-circuit `&&` on line 34 guards the `++`, so a running task is left exactly as it is. It is not true that every task counts every tick.
- After a poll pass the list is the kept tasks followed by the tasks that listeners created. So the list shrinks by exactly the number of retired tasks only when the listeners created nothing.

## Model

| member | source | states |
|---|---|---|
| TickSweep.TickTask | src/tasks.c:34-40 | A running task is unchanged. An idle task counts one tick, and it becomes running, with its count reset to 0, exactly when the new count reaches `millis`. Only `ticks` and `running` change. |
| TickSweep.TickAll | src/tasks.c:32-43 | One sweep applies the per-task rule to every task, in place, and keeps the length. |
| TickSweep.TickAllKeepsShape | src/tasks.c:32-43 | A sweep keeps the handles, their order, the periods, schedules, listeners and callbacks. Running tasks are untouched. |
| TickSweep.TickNRunning | src/tasks.c:34 | A running task stays as it is however many sweeps come. |
| TickSweep.TickNCounts | src/tasks.c:34 | Before the count reaches the period, each sweep adds exactly one to it. |
| TickSweep.TickPeriod | src/tasks.c:34-40 | A task with period p >= 1 that starts from count 0 is marked running by the p-th sweep and by none before it, with its count back at 0. |
| Dispatch.SpawnedShape | src/tasks.c:118-139 | The j-th task a listener creates gets handle `alloc + j` and the call's period, schedule and listener, with count 0 and not running. Only the first created task can take over the current task's callback; the later ones keep the callback they were given. |
| Dispatch.NewTask | src/tasks.c:122-133 | Computes the record `Tasks_create` fills in: the given handle, period, schedule, listener and callback, with count 0 and not running. |
| Dispatch.Spawned | src/tasks.c:136-139 | Computes the tasks one listener's `Tasks_create` calls create, with handles from `alloc` on. The first takes over the task's callback when there is one; the later ones keep their own, since the first call cleared it. |
| Dispatch.SpawnedSnoc | src/tasks.c:136-139 | Each later creation by the same listener finds the current task's callback already cleared. |
| Dispatch.StepIdle | src/tasks.c:132-133 | The tasks created while a pass runs are all idle. |
| Dispatch.PollFrom | src/tasks.c:61-102 | The pass hands out exactly one handle per created task. |
| Dispatch.Retired | src/tasks.c:67-75 | Holds for a task the pass frees: one that is running and has the one-shot schedule. |
| Dispatch.Settled | src/tasks.c:96 | Computes a task the pass keeps: an idle one unchanged; a running one no longer running, and without its callback if its listener created a task (the hand-over of line 138). |
| Dispatch.Step | src/tasks.c:67-100 | Computes one task's turn of the pass: keep it settled unless it is retired, append the tasks its listener creates with the next handles, record its listener and callback invocations, and advance the handle counter. |
| Dispatch.SpawnedFresh | src/tasks.c:120-133 | The tasks a pass creates take consecutive handles from the first free one, are idle and have count 0. |
| Dispatch.PollMatchesReference | src/tasks.c:66-100 | The pass keeps exactly the tasks that are not running one-shot tasks, in their original order and settled. It makes every task's invocations in list order. |
| Dispatch.SurvivorsCount | src/tasks.c:75-92 | The kept list is shorter than the original by exactly the number of running one-shot tasks. |
| Dispatch.SurvivorsFrom | src/tasks.c:66-100 | Something survives the pass if and only if it is the settled form of a task that was not a running one-shot task. |
| Dispatch.IdleSurvives | src/tasks.c:66-100 | A task that is not running survives the pass unchanged. |
| Dispatch.RepeatingSettles | src/tasks.c:67-96 | A running repeating task stays in the list, is no longer running, and has lost its callback if its listener created a task. Its only invocation is its listener's, if it has a listener. |
| Dispatch.PollKeptCount | src/tasks.c:75-92 | The number of tasks kept is the length of the list minus the number of running one-shot tasks. |
| Dispatch.RepeatingOnlyKeepsSize | src/tasks.c:95-100 | With no running one-shot task, the pass keeps every task. |
| Dispatch.NoRetiredCount | src/tasks.c:75 | With no running one-shot task, the pass retires nothing. |
| Dispatch.EventsFromRunning | src/tasks.c:67-77 | Every invocation of a pass is made on behalf of a task of the list that was running. |
| Dispatch.PollAppend | src/tasks.c:61-102 | A pass over `a + b` is a pass over `a` followed by a pass over `b` that continues from the next free handle. |
| Dispatch.PollOntoFrom | src/tasks.c:63-101 | The front-to-back walk, carried on from where a pass over the front stopped, ends where the pass over the whole list does. |
| Dispatch.PollOnto | src/tasks.c:63-101 | Computes the pass as the loop runs it, one `Step` per task from the head of the list to NULL, starting from a given state. |
| Dispatch.PollSplit | src/tasks.c:61-102 | The pass splits into the tasks before position i, the task at i, and the tasks after it. |
| Dispatch.ListenerBeforeCallback | src/tasks.c:68-78 | A running one-shot task with a listener, and still a callback once its listener has returned, has its listener invoked immediately followed by its callback. |
| Dispatch.RetiredGone | src/tasks.c:80-91 | The handle of a retired task is in neither the kept part nor the created part of the list the pass leaves. |
| Dispatch.WalkEvents | src/tasks.c:66-100 | Walking tasks front to back adds their invocations in list order after those already made. |
| Dispatch.RetiredNeverRecurs | src/tasks.c:80-91 | No later pass, over any list made of tasks this pass kept or created or of tasks created afterwards, invokes anything on behalf of a retired task. |
| Dispatch.EventsOfTask | src/tasks.c:67-91 | With unique handles, the invocations made on behalf of one task are exactly that task's own: its listener, then its callback, each at most once. |
| Dispatch.OneShotRunsOnce | src/tasks.c:67-91 | A running one-shot task with a listener and a remaining callback gets exactly two invocations in the pass: its listener, then its callback. |
| Dispatch.InheritsOnce | src/tasks.c:136-139 | A running task with a callback, whose listener creates tasks, does not invoke that callback itself. The first task it creates carries the callback, and each later one keeps its own. They sit side by side at the tail. |
| Links.DistinctIds | src/tasks.c:120 | Every node carries its own handle, so no two tasks of the list share one. |
| Links.Linked | src/tasks.c:26 | Holds when following `next` from `tasks` visits the given nodes, each once, ending in NULL, with every node filed under its own handle and every handle below the next one handed out. |
| Links.Disinherit | src/tasks.c:138 | Computes the list with the current task's callback cleared, every other task unchanged. |
| Links.SetTask | src/tasks.c:34-39 | Rewriting a node's record in place changes that one task of the list and nothing else. |
| Links.ClearCallback | src/tasks.c:138 | Clearing the current task's callback in place clears it in the list and changes nothing else. |
| Links.Append | src/tasks.c:141-150 | Linking a new node after the last one, or as the head of an empty list, appends its task to the list and keeps the links well formed. |
| Links.Attached | src/tasks.c:141-150 | Computes the arena and head after a new node is linked: it becomes `tasks` when the list is empty, or the last node's `next` otherwise, with NULL as its own `next`. |
| Links.Remove | src/tasks.c:80-91 | Unlinking a node, from `tasks` or from its predecessor, and freeing it removes its task from the list, keeps the others in order and keeps the links well formed. The removed node's `next` is the node after it. |
| Links.Unlinked | src/tasks.c:80-90 | Computes the arena and head after a node is unlinked and freed: `tasks` takes its `next` when it is the head, otherwise its predecessor `last` does, and the node is gone. |
| Scheduler.IdleStep | src/tasks.c:99-100 | Walking past an idle task changes neither the list nor the invocations. |
| Scheduler.KeepStep | src/tasks.c:95-100 | Dispatching a running repeating task in place leaves the list the pass specification describes, one task further on. |
| Scheduler.RetireStep | src/tasks.c:75-92 | Dispatching a running one-shot task and unlinking it leaves the list the pass specification describes, at the same position. |
| Scheduler.ListenerCreates | src/tasks.c:136-150 | A listener's next `Tasks_create` call appends the next created task and hands on the callback only the first time. |
| Scheduler.CountWraps | src/tasks.c:111 | The 16-bit counter, incremented with wrap-around, tracks the count modulo 2^16. |
| Scheduler.TaskList.constructor | src/tasks.c:27-28 | The list starts empty and no task is current. |
| Scheduler.TaskList.Tick | src/tasks.c:30-44 | After one interrupt, the list's tasks are exactly one sweep of the old ones. Links, `current` and the trace are unchanged. |
| Scheduler.TaskList.TickNode | src/tasks.c:34-40 | One node is swept in place, and the rest of the list is unchanged. |
| Scheduler.TaskList.Size | src/tasks.c:104-116 | Returns the number of tasks modulo 2^16, and changes nothing. |
| Scheduler.TaskList.Create | src/tasks.c:118-154 | Returns a fresh handle, and the list gains the new idle task at the tail. When a task is current and has a callback, the new task gets that callback and the current task loses it; otherwise the new task keeps the callback passed. Nothing else changes. |
| Scheduler.TaskList.Link | src/tasks.c:141-150 | The new node is linked at the tail, the list gains exactly its task, and the links stay well formed. |
| Scheduler.TaskList.LastNode | src/tasks.c:144-147 | The walk from `tasks` along `next` stops at the last node of the list. |
| Scheduler.TaskList.WalkStarts | src/tasks.c:63-64 | The poll loop starts at `tasks` with the whole pass ahead. |
| Scheduler.TaskList.WalkEnds | src/tasks.c:66 | When the walk reaches NULL, every original task has been walked past and the list is what the pass leaves. |
| Scheduler.TaskList.Poll | src/tasks.c:61-102 | After the pass, the list is the kept tasks followed by the created ones, the trace has gained the pass's invocations in order, and `current` is NULL again. All of this is as `PollFrom` specifies. |
| Scheduler.TaskList.PassOver | src/tasks.c:66-100 | One turn of the loop at an idle node sets `last` to it and `node` to its successor, advances the walk by one position, and changes nothing else. If original tasks remain, exactly one of them is walked past with one step of the pass specification. |
| Scheduler.TaskList.RunNode | src/tasks.c:67-100 | One turn of the loop at a running node is exactly one step of the pass specification on the next original task. If that task retires, `last` and the position stay; otherwise `last` becomes the node and the position advances by one. |
| Scheduler.TaskList.RetiredWalk | src/tasks.c:88-92 | After a one-shot node is freed, the walk stays at the same position, which now holds the freed node's `next`. |
| Scheduler.TaskList.KeptWalk | src/tasks.c:95-100 | After a repeating node is settled, the walk moves one node on with `last` at that node. |
| Scheduler.TaskList.RunTask | src/tasks.c:67-96 | A running task is dispatched: its listener runs, then a one-shot task is retired (with its callback run) or a repeating task is settled. The list, handles and trace change exactly as for one step of the pass, and `next` is the node the walk goes on with. |
| Scheduler.TaskList.Fire | src/tasks.c:68-72 | The listener, if any, is invoked with the task as `current`. The tasks it creates go to the tail, the first of them taking over the task's callback. `current` is NULL afterwards. |
| Scheduler.TaskList.RunListener | src/tasks.c:70 | The listener makes its `Tasks_create` calls in order. The list gains those tasks, and only the first of them inherits the callback. |
| Scheduler.TaskList.CreateFor | src/tasks.c:118-154 | One `Tasks_create` call made from inside the listener appends the next task and hands on the callback only if it is still there. |
| Scheduler.TaskList.Expire | src/tasks.c:75-92 | The one-shot task's remaining callback, if any, is invoked. Its node is then unlinked and freed, and the walk goes on with the node that follows it. |
| Scheduler.TaskList.Settle | src/tasks.c:95-96 | The repeating task is marked not running in place, and nothing else changes. |
| Scheduler.TaskList.Retire | src/tasks.c:80-91 | The node is unlinked from `tasks` or from `last`, and freed. Its task leaves the list, the others keep their order, and its `next` is returned. |

## Left out

- `Tasks_init` (src/tasks.c:46-59) programs the timer registers. This is hardware I/O, so the tick is a method that the environment calls.
- The interrupt can arrive while `Tasks_poll` or `Tasks_create` is running, and `ATOMIC_BLOCK` guards against that. Here every operation runs to completion on its own, so interleavings are not modelled.
- `malloc` failure is not modelled; the source does not check for NULL either. Freed memory is never handed out again: handles only grow.
- Listener and callback bodies are opaque. A listener is modelled only by the `Tasks_create` calls it makes. Callbacks are modelled as making no `Tasks_create` calls. One that did would append an idle task at the tail during the pass, and that task would inherit nothing, because `current` is NULL while a callback runs. Other effects of these bodies are not modelled. Examples are calling `Tasks_poll` from inside a listener, or a listener changing tasks other than through `Tasks_create`.
- `ticks` is an unbounded natural number. The width of the field is declared in tasks.h, which is not part of this model, so its overflow is not modelled.
- `millis` and the count returned by `Tasks_size` are 16-bit. The counter's wrap-around is modelled explicitly.
- Only `TASK_SCHEDULE` is told apart: the source compares the schedule with it alone, so every other value of the schedule enum is modelled as one `Repeating` value.
- Scheduler.TaskList.Poll: requires `current` to be NULL. That holds whenever the main loop calls it. A poll started from inside a listener is not modelled.
- Scheduler.TaskList.Create: the returned handle is the node's address only in the abstract. Address reuse after `free` is not modelled.
