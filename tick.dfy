/** What one timer-compare interrupt does to the task list (src/tasks.c:30-44). */
module TickSweep {
  import opened Types

  /** The effect of one sweep on one task: a task that is not yet running
      counts the tick, and once its count reaches its period the count goes
      back to 0 and the task is marked running. A running task is left alone
      (the `&&` of src/tasks.c:34 short-circuits before the increment). */
  function TickTask(t: Task): (r: Task)
    ensures r.(ticks := t.ticks, running := t.running) == t
    ensures t.running ==> r == t
    ensures !t.running ==> (r.running <==> t.ticks + 1 >= t.millis)
    ensures !t.running && !r.running ==> r.ticks == t.ticks + 1
    ensures r.running && !t.running ==> r.ticks == 0
  {
    if t.running then t
    else
      var counted := t.(ticks := t.ticks + 1);
      if counted.ticks >= counted.millis then counted.(ticks := 0, running := true) else counted
  }

  /** One sweep over the whole list. */
  function TickAll(ts: seq<Task>): (r: seq<Task>)
    ensures |r| == |ts|
    ensures forall k :: 0 <= k < |ts| ==> r[k] == TickTask(ts[k])
  {
    seq(|ts|, k requires 0 <= k < |ts| => TickTask(ts[k]))
  }

  /** `k` consecutive sweeps applied to one task. */
  function TickN(t: Task, k: nat): Task
    decreases k
  {
    if k == 0 then t else TickN(TickTask(t), k - 1)
  }

  lemma {:induction false} TickNLast(t: Task, k: nat)
    ensures TickN(t, k + 1) == TickTask(TickN(t, k))
    decreases k
  {
    if k > 0 {
      TickNLast(TickTask(t), k - 1);
    }
  }

  /** Sweeps never change the list's length, order, handles, periods,
      schedules, listeners or callbacks; tasks already running are untouched. */
  lemma TickAllKeepsShape(ts: seq<Task>)
    ensures Ids(TickAll(ts)) == Ids(ts)
    ensures forall k :: 0 <= k < |ts| ==>
      var r := TickAll(ts)[k];
      r.millis == ts[k].millis && r.schedule == ts[k].schedule &&
      r.listener == ts[k].listener && r.callback == ts[k].callback
    ensures forall k :: 0 <= k < |ts| && ts[k].running ==> TickAll(ts)[k] == ts[k]
  {
    var r := TickAll(ts);
    assert |Ids(r)| == |Ids(ts)|;
    forall k | 0 <= k < |ts| ensures Ids(r)[k] == Ids(ts)[k] {
      assert r[k] == TickTask(ts[k]);
    }
  }

  /** A task that is running stays exactly as it is, however many sweeps come. */
  lemma {:induction false} TickNRunning(t: Task, k: nat)
    requires t.running
    ensures TickN(t, k) == t
    decreases k
  {
    if k > 0 {
      TickNRunning(TickTask(t), k - 1);
    }
  }

  /** Before its count reaches its period, each sweep adds exactly one to it. */
  lemma {:induction false} TickNCounts(t: Task, k: nat)
    requires !t.running && t.ticks + k < t.millis
    ensures TickN(t, k) == t.(ticks := t.ticks + k)
    decreases k
  {
    if k > 0 {
      TickNCounts(TickTask(t), k - 1);
    }
  }

  /** A task with period p >= 1 that starts from a count of 0 is marked running
      by exactly the p-th sweep and by none before it, and its count is back
      at 0; clearing its flag gives back the task it started as. */
  lemma TickPeriod(t: Task)
    requires !t.running && t.ticks == 0 && t.millis >= 1
    ensures forall k :: 0 <= k < t.millis ==> TickN(t, k) == t.(ticks := k)
    ensures TickN(t, t.millis) == t.(running := true)
    ensures TickN(t, t.millis).(running := false) == t
  {
    forall k | 0 <= k < t.millis ensures TickN(t, k) == t.(ticks := k) {
      TickNCounts(t, k);
    }
    TickNCounts(t, t.millis - 1);
    TickNLast(t, t.millis - 1);
  }
}
