/** The values the scheduler of src/tasks.c works with: task records, the
    opaque listener and callback tokens, and the events a poll pass emits. */
module Types {

  datatype Option<+T> = None | Some(value: T)

  /** The first argument if it is present, otherwise the second. */
  function Or<T>(a: Option<T>, b: Option<T>): Option<T>
  {
    if a.Some? then a else b
  }

  /** An unsigned 16-bit value: the width of a task's period and of the count Tasks_size returns. */
  type uint16 = x: int | 0 <= x < 0x1_0000

  /** A task handle stands for the address malloc hands out for a node. */
  type Handle = nat

  /** TASK_SCHEDULE tasks fire once and are retired; every other schedule repeats. */
  datatype Schedule = OneShot | Repeating

  /** A callback function pointer, known only by its name. */
  datatype Callback = Callback(name: nat)

  /** A listener function pointer. Its body is opaque apart from the tasks it
      creates (in this order) while it runs. */
  datatype Listener = Listener(name: nat, spawns: seq<Spawn>)

  /** The arguments of one Tasks_create call a listener makes. */
  datatype Spawn = Spawn(millis: uint16, schedule: Schedule, listener: Option<Listener>, callback: Option<Callback>)

  /** One node of the task list, without its `next` link. */
  datatype Task = Task(id: Handle, millis: uint16, schedule: Schedule, listener: Option<Listener>,
                       callback: Option<Callback>, ticks: nat, running: bool)

  /** An invocation of a listener or of a callback, on behalf of the task `task`. */
  datatype Event = ListenerRan(task: Handle, listener: nat) | CallbackRan(task: Handle, callback: nat)

  /** The handles of a list of tasks, in list order. */
  function Ids(ts: seq<Task>): seq<Handle>
  {
    seq(|ts|, k requires 0 <= k < |ts| => ts[k].id)
  }

  predicate UniqueIds(ts: seq<Task>)
  {
    forall i, j :: 0 <= i < j < |ts| ==> ts[i].id != ts[j].id
  }

  /** Every handle in `ts` was handed out before `n`. */
  predicate IdsBelow(ts: seq<Task>, n: Handle)
  {
    forall k :: 0 <= k < |ts| ==> ts[k].id < n
  }
}
