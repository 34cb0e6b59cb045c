/** What one Tasks_poll pass does, stated over the list of tasks as values
    (src/tasks.c:61-102), together with the record Tasks_create builds and the
    callback-inheritance rule it applies (src/tasks.c:118-154). */
module Dispatch {
  import opened Types

  /** The node Tasks_create fills in: count 0, not running (src/tasks.c:122-133). */
  function NewTask(h: Handle, millis: uint16, schedule: Schedule, listener: Option<Listener>,
                   callback: Option<Callback>): Task
  {
    Task(h, millis, schedule, listener, callback, 0, false)
  }

  /** The tasks a listener creates through Tasks_create while `current` is its
      task, whose callback is `cb` when the listener starts. Handles are
      handed out from `alloc` on. The first creation takes over `cb` when
      there is one (overriding the callback it passed); that clears `cb`,
      so every later creation keeps its own. */
  function Spawned(cb: Option<Callback>, sp: seq<Spawn>, alloc: Handle): (r: seq<Task>)
    ensures |r| == |sp|
  {
    seq(|sp|, j requires 0 <= j < |sp| =>
      NewTask(alloc + j, sp[j].millis, sp[j].schedule, sp[j].listener,
              if j == 0 then Or(cb, sp[j].callback) else sp[j].callback))
  }

  /** The j-th task created takes handle `alloc + j` and the j-th call's
      arguments; only the first can have taken over `cb`. */
  lemma {:induction false} SpawnedShape(cb: Option<Callback>, sp: seq<Spawn>, alloc: Handle)
    ensures forall j :: 0 <= j < |sp| ==>
      Spawned(cb, sp, alloc)[j].id == alloc + j && Spawned(cb, sp, alloc)[j].millis == sp[j].millis &&
      Spawned(cb, sp, alloc)[j].schedule == sp[j].schedule && Spawned(cb, sp, alloc)[j].listener == sp[j].listener &&
      Spawned(cb, sp, alloc)[j].ticks == 0 && !Spawned(cb, sp, alloc)[j].running
    ensures |sp| > 0 ==> Spawned(cb, sp, alloc)[0].callback == Or(cb, sp[0].callback)
    ensures forall j :: 0 < j < |sp| ==> Spawned(cb, sp, alloc)[j].callback == sp[j].callback
  {
  }

  /** One more creation by the same listener: only the first one can
      have taken over the task's callback. */
  lemma {:induction false} SpawnedSnoc(cb: Option<Callback>, sp: seq<Spawn>, i: nat, alloc: Handle)
    requires i < |sp|
    ensures Spawned(cb, sp[..i + 1], alloc) == Spawned(cb, sp[..i], alloc) +
      [NewTask(alloc + i, sp[i].millis, sp[i].schedule, sp[i].listener,
               Or(if i == 0 then cb else None, sp[i].callback))]
  {
  }

  /** The Tasks_create calls a task's listener makes when poll dispatches it:
      none unless the task is running and has a listener. */
  function SpawnsOf(t: Task): seq<Spawn>
  {
    if t.running && t.listener.Some? then t.listener.value.spawns else []
  }

  /** The task's callback once its listener has returned: a listener that
      created a task handed the callback over to the first one it created. */
  function CallbackAfterListener(t: Task): Option<Callback>
  {
    if |SpawnsOf(t)| > 0 then None else t.callback
  }

  /** A task that this poll pass retires: a running one-shot task. */
  predicate Retired(t: Task)
  {
    t.running && t.schedule == OneShot
  }

  /** What a task that stays in the list looks like after the pass: a running
      (repeating) task has run its listener, may have lost its callback to a
      task it created, and is no longer running; an idle task is untouched. */
  function Settled(t: Task): Task
  {
    if t.running then t.(callback := CallbackAfterListener(t), running := false) else t
  }

  /** The listener invocation poll makes for a task: one, when the task is
      running and has a listener. */
  function ListenerEvents(t: Task): seq<Event>
  {
    if t.running && t.listener.Some? then [ListenerRan(t.id, t.listener.value.name)] else []
  }

  /** The invocation of a task's callback, when it has one. */
  function CallbackCall(t: Task): seq<Event>
  {
    if t.callback.Some? then [CallbackRan(t.id, t.callback.value.name)] else []
  }

  /** The callback invocation poll makes for a task: one, when it retires
      the task and the task still has a callback after its listener. */
  function CallbackEvents(t: Task): seq<Event>
  {
    if Retired(t) then CallbackCall(t.(callback := CallbackAfterListener(t))) else []
  }

  /** The listener and callback invocations poll makes for one task. */
  function TaskEvents(t: Task): seq<Event>
  {
    ListenerEvents(t) + CallbackEvents(t)
  }

  /** The state of a poll pass: tasks it has walked past and kept, tasks
      created on the way (they sit at the tail of the list), the invocations
      made so far and the next free handle. */
  datatype Outcome = Outcome(kept: seq<Task>, spawned: seq<Task>, events: seq<Event>, alloc: Handle)

  /** The pass moving past one more task of the original list. */
  function Step(acc: Outcome, t: Task): Outcome
  {
    Outcome(acc.kept + (if Retired(t) then [] else [Settled(t)]),
            acc.spawned + Spawned(t.callback, SpawnsOf(t), acc.alloc),
            acc.events + TaskEvents(t),
            acc.alloc + |SpawnsOf(t)|)
  }

  /** Tasks that are all idle. */
  predicate AllIdle(ts: seq<Task>)
  {
    forall j :: 0 <= j < |ts| ==> !ts[j].running
  }

  /** The tasks created by one more step are idle too. */
  lemma {:induction false} StepIdle(acc: Outcome, t: Task)
    requires AllIdle(acc.spawned)
    ensures AllIdle(Step(acc, t).spawned)
  {
    var sp := Spawned(t.callback, SpawnsOf(t), acc.alloc);
    SpawnedShape(t.callback, SpawnsOf(t), acc.alloc);
    forall j | 0 <= j < |acc.spawned + sp| ensures !(acc.spawned + sp)[j].running {
      if j >= |acc.spawned| {
        assert (acc.spawned + sp)[j] == sp[j - |acc.spawned|];
      }
    }
  }

  /** A poll pass over the tasks `ts`, in list order, with handles from
      `alloc` on for the tasks created by listeners. The tasks created during
      the pass are new, idle and at count 0, so the walk passes over them. */
  function PollFrom(ts: seq<Task>, alloc: Handle): (r: Outcome)
    ensures r.alloc == alloc + |r.spawned|
    decreases |ts|
  {
    if ts == [] then Outcome([], [], [], alloc)
    else Step(PollFrom(ts[..|ts| - 1], alloc), ts[|ts| - 1])
  }

  /** Tasks that take the handles from `alloc` on, in order, and start idle
      with their count at 0. */
  predicate FreshFrom(ts: seq<Task>, alloc: Handle)
  {
    forall k :: 0 <= k < |ts| ==> ts[k].id == alloc + k && !ts[k].running && ts[k].ticks == 0
  }

  /** The tasks a pass creates are fresh: handles from `alloc` on, idle,
      count 0. */
  lemma {:induction false} SpawnedFresh(ts: seq<Task>, alloc: Handle)
    ensures FreshFrom(PollFrom(ts, alloc).spawned, alloc)
    decreases |ts|
  {
    if ts != [] {
      var init, t := ts[..|ts| - 1], ts[|ts| - 1];
      SpawnedFresh(init, alloc);
      var acc := PollFrom(init, alloc);
      var sp := Spawned(t.callback, SpawnsOf(t), acc.alloc);
      var r := PollFrom(ts, alloc);
      assert r.spawned == acc.spawned + sp;
      forall k | 0 <= k < |r.spawned|
        ensures r.spawned[k].id == alloc + k && !r.spawned[k].running && r.spawned[k].ticks == 0
      {
        if k < |acc.spawned| {
          assert r.spawned[k] == acc.spawned[k];
        } else {
          assert r.spawned[k] == sp[k - |acc.spawned|];
        }
      }
    }
  }

  // ---------------------------------------------------------------------
  // Reference definitions, by recursion over the list instead of by the
  // pass, and what the pass is proved to do against them.

  /** The list with the retired tasks filtered out, the others settled. */
  function Survivors(ts: seq<Task>): seq<Task>
  {
    if ts == [] then []
    else (if Retired(ts[0]) then [] else [Settled(ts[0])]) + Survivors(ts[1..])
  }

  /** How many tasks of `ts` a poll pass retires. */
  function RetiredCount(ts: seq<Task>): nat
  {
    if ts == [] then 0 else (if Retired(ts[0]) then 1 else 0) + RetiredCount(ts[1..])
  }

  /** All the invocations, task after task in list order. */
  function EventsOf(ts: seq<Task>): seq<Event>
  {
    if ts == [] then [] else TaskEvents(ts[0]) + EventsOf(ts[1..])
  }

  lemma {:induction false} SurvivorsSnoc(ts: seq<Task>, t: Task)
    ensures Survivors(ts + [t]) == Survivors(ts) + (if Retired(t) then [] else [Settled(t)])
    decreases |ts|
  {
    if ts == [] {
      assert ts + [t] == [t] && [t][1..] == [];
    } else {
      assert (ts + [t])[0] == ts[0] && (ts + [t])[1..] == ts[1..] + [t];
      SurvivorsSnoc(ts[1..], t);
    }
  }

  /** The pass keeps exactly the tasks that are not running one-shot tasks,
      in their original order, and emits every task's invocations in list
      order. */
  lemma {:induction false} PollMatchesReference(ts: seq<Task>, alloc: Handle)
    ensures PollFrom(ts, alloc).kept == Survivors(ts)
    ensures PollFrom(ts, alloc).events == EventsOf(ts)
  {
    KeptMatchesReference(ts, alloc);
    var start := PollFrom([], alloc);
    assert start.events == [];
    PollOntoFrom([], ts, alloc);
    assert [] + ts == ts;
    WalkEvents(start, ts);
    assert start.events + EventsOf(ts) == EventsOf(ts);
  }

  lemma {:induction false} KeptMatchesReference(ts: seq<Task>, alloc: Handle)
    ensures PollFrom(ts, alloc).kept == Survivors(ts)
    decreases |ts|
  {
    if ts != [] {
      var init, t := ts[..|ts| - 1], ts[|ts| - 1];
      assert ts == init + [t];
      KeptMatchesReference(init, alloc);
      SurvivorsSnoc(init, t);
    }
  }

  /** The front-to-back walk adds the invocations of the tasks it walks
      past, in order. */
  lemma {:induction false} WalkEvents(acc: Outcome, ts: seq<Task>)
    ensures PollOnto(acc, ts).events == acc.events + EventsOf(ts)
    decreases |ts|
  {
    if ts == [] {
      assert acc.events + [] == acc.events;
    } else {
      var next, tail := Step(acc, ts[0]), ts[1..];
      var before, first, after := acc.events, TaskEvents(ts[0]), EventsOf(tail);
      assert next.events == before + first;
      WalkEvents(next, tail);
      assert PollOnto(acc, ts) == PollOnto(next, tail);
      assert EventsOf(ts) == first + after;
      Regroup(before, first, after);
    }
  }

  lemma Regroup(a: seq<Event>, b: seq<Event>, c: seq<Event>)
    ensures (a + b) + c == a + (b + c)
  {
  }

  /** The list shrinks by exactly the number of running one-shot tasks. */
  lemma {:induction false} SurvivorsCount(ts: seq<Task>)
    ensures |Survivors(ts)| == |ts| - RetiredCount(ts)
    decreases |ts|
  {
    if ts != [] {
      SurvivorsCount(ts[1..]);
    }
  }

  /** Every survivor is a task of the list that was not retired, settled;
      every task that was not retired survives. */
  lemma {:induction false} SurvivorsFrom(ts: seq<Task>)
    ensures forall s :: s in Survivors(ts) <==> exists i :: 0 <= i < |ts| && !Retired(ts[i]) && s == Settled(ts[i])
    decreases |ts|
  {
    if ts != [] {
      SurvivorsFrom(ts[1..]);
      forall s | s in Survivors(ts) ensures exists i :: 0 <= i < |ts| && !Retired(ts[i]) && s == Settled(ts[i]) {
        if !(s in Survivors(ts[1..])) {
          assert !Retired(ts[0]) && s == Settled(ts[0]);
        } else {
          var i :| 0 <= i < |ts[1..]| && !Retired(ts[1..][i]) && s == Settled(ts[1..][i]);
          assert ts[i + 1] == ts[1..][i];
        }
      }
      forall i | 0 <= i < |ts| && !Retired(ts[i]) ensures Settled(ts[i]) in Survivors(ts) {
        if i > 0 {
          assert ts[1..][i - 1] == ts[i];
        }
      }
    }
  }

  /** An idle task survives the pass exactly as it was. */
  lemma {:induction false} IdleSurvives(ts: seq<Task>, alloc: Handle, i: nat)
    requires i < |ts| && !ts[i].running
    ensures ts[i] in PollFrom(ts, alloc).kept
  {
    PollMatchesReference(ts, alloc);
    SurvivorsFrom(ts);
    assert Settled(ts[i]) == ts[i];
  }

  /** A running repeating task stays in the list, no longer running, having
      made exactly one invocation, of its listener if it has one. */
  lemma {:induction false} RepeatingSettles(ts: seq<Task>, alloc: Handle, i: nat)
    requires i < |ts| && ts[i].running && ts[i].schedule != OneShot
    ensures ts[i].(callback := CallbackAfterListener(ts[i]), running := false) in PollFrom(ts, alloc).kept
    ensures TaskEvents(ts[i]) == if ts[i].listener.Some? then [ListenerRan(ts[i].id, ts[i].listener.value.name)] else []
  {
    PollMatchesReference(ts, alloc);
    SurvivorsFrom(ts);
    assert Settled(ts[i]) == ts[i].(callback := CallbackAfterListener(ts[i]), running := false);
    assert CallbackEvents(ts[i]) == [];
  }

  /** The pass keeps all the tasks but the running one-shot ones. */
  lemma {:induction false} PollKeptCount(ts: seq<Task>, alloc: Handle)
    ensures |PollFrom(ts, alloc).kept| == |ts| - RetiredCount(ts)
  {
    PollMatchesReference(ts, alloc);
    SurvivorsCount(ts);
  }

  /** With no running one-shot task, the pass keeps every task. */
  lemma {:induction false} RepeatingOnlyKeepsSize(ts: seq<Task>, alloc: Handle)
    requires forall i :: 0 <= i < |ts| ==> !Retired(ts[i])
    ensures |PollFrom(ts, alloc).kept| == |ts|
  {
    PollKeptCount(ts, alloc);
    NoRetiredCount(ts);
  }

  lemma {:induction false} NoRetiredCount(ts: seq<Task>)
    requires forall i :: 0 <= i < |ts| ==> !Retired(ts[i])
    ensures RetiredCount(ts) == 0
    decreases |ts|
  {
    if ts != [] {
      assert !Retired(ts[0]);
      NoRetiredCount(ts[1..]);
    }
  }

  /** Every invocation of a pass is made for a task of the list that was running. */
  lemma {:induction false} EventsFromRunning(ts: seq<Task>)
    ensures forall e :: e in EventsOf(ts) ==> exists i :: 0 <= i < |ts| && ts[i].running && e.task == ts[i].id
    decreases |ts|
  {
    if ts != [] {
      var tail := ts[1..];
      var first, after := TaskEvents(ts[0]), EventsOf(tail);
      assert EventsOf(ts) == first + after;
      EventsFromRunning(tail);
      TaskEventsOwn(ts[0]);
      forall e: Event | e in first + after ensures exists i :: 0 <= i < |ts| && ts[i].running && e.task == ts[i].id {
        if e in first {
          assert ts[0].running && e.task == ts[0].id;
        } else {
          var i :| 0 <= i < |tail| && tail[i].running && e.task == tail[i].id;
          assert ts[i + 1] == tail[i];
        }
      }
    }
  }

  /** A task's own invocations are all made on its behalf, and only when it
      was running. */
  lemma TaskEventsOwn(t: Task)
    ensures forall e :: e in TaskEvents(t) ==> t.running && e.task == t.id
  {
  }

  /** Two passes one after the other: the second continues handing out
      handles where the first stopped. */
  function Then(x: Outcome, y: Outcome): Outcome
  {
    Outcome(x.kept + y.kept, x.spawned + y.spawned, x.events + y.events, y.alloc)
  }

  /** A pass over a list is a pass over its front followed by a pass over
      its back: what happens to a task depends on nothing before it but the
      next free handle. */
  lemma {:induction false} PollAppend(a: seq<Task>, b: seq<Task>, alloc: Handle)
    ensures PollFrom(a + b, alloc) == Then(PollFrom(a, alloc), PollFrom(b, PollFrom(a, alloc).alloc))
    decreases |b|
  {
    var x := PollFrom(a, alloc).alloc;
    if b == [] {
      assert a + b == a;
    } else {
      var init, t := b[..|b| - 1], b[|b| - 1];
      assert b == init + [t];
      assert a + b == (a + init) + [t];
      PollSnoc(a + init, t, alloc);
      PollSnoc(init, t, x);
      PollAppend(a, init, alloc);
      StepThen(PollFrom(a, alloc), PollFrom(init, x), t);
    }
  }

  /** The pass carried on from `acc` over `ts`, front to back, the way
      Tasks_poll walks the list. */
  function PollOnto(acc: Outcome, ts: seq<Task>): Outcome
    decreases |ts|
  {
    if ts == [] then acc else PollOnto(Step(acc, ts[0]), ts[1..])
  }

  /** Walking the back of a list from where a pass over its front left off
      ends where a pass over the whole list does. */
  lemma {:induction false} PollOntoFrom(a: seq<Task>, b: seq<Task>, alloc: Handle)
    ensures PollOnto(PollFrom(a, alloc), b) == PollFrom(a + b, alloc)
    decreases |b|
  {
    if b == [] {
      assert a + b == a;
    } else {
      var a' := a + [b[0]];
      assert a' + b[1..] == a + b by {
        assert b == [b[0]] + b[1..];
      }
      assert PollFrom(a', alloc) == Step(PollFrom(a, alloc), b[0]) by {
        assert a'[..|a'| - 1] == a;
      }
      PollOntoFrom(a', b[1..], alloc);
    }
  }

  lemma {:induction false} StepThen(x: Outcome, y: Outcome, t: Task)
    ensures Step(Then(x, y), t) == Then(x, Step(y, t))
  {
    var sp := Spawned(t.callback, SpawnsOf(t), y.alloc);
    assert (x.spawned + y.spawned) + sp == x.spawned + (y.spawned + sp);
  }

  /** The pass split around the task at `i`. */
  lemma {:induction false} PollSplit(ts: seq<Task>, alloc: Handle, i: nat)
    requires i < |ts|
    ensures var before := PollFrom(ts[..i], alloc);
            var here := PollFrom([ts[i]], before.alloc);
            PollFrom(ts, alloc) == Then(Then(before, here), PollFrom(ts[i + 1..], here.alloc))
  {
    var before := PollFrom(ts[..i], alloc);
    var here := PollFrom([ts[i]], before.alloc);
    assert ts == (ts[..i] + [ts[i]]) + ts[i + 1..];
    PollAppend(ts[..i] + [ts[i]], ts[i + 1..], alloc);
    PollAppend(ts[..i], [ts[i]], alloc);
  }

  /** A running one-shot task with a listener, and still a callback once its
      listener has returned, has its listener invoked and then, immediately
      after, its callback. */
  lemma {:induction false} ListenerBeforeCallback(ts: seq<Task>, alloc: Handle, i: nat)
    requires i < |ts| && Retired(ts[i])
    requires ts[i].listener.Some? && CallbackAfterListener(ts[i]).Some?
    ensures exists p :: (0 <= p && p + 1 < |PollFrom(ts, alloc).events| &&
      PollFrom(ts, alloc).events[p] == ListenerRan(ts[i].id, ts[i].listener.value.name) &&
      PollFrom(ts, alloc).events[p + 1] == CallbackRan(ts[i].id, CallbackAfterListener(ts[i]).value.name))
  {
    PollSplit(ts, alloc, i);
    var before := PollFrom(ts[..i], alloc);
    assert [ts[i]][..0] == [];
    var p := |before.events|;
    assert PollFrom(ts, alloc).events[p] == TaskEvents(ts[i])[0];
    assert PollFrom(ts, alloc).events[p + 1] == TaskEvents(ts[i])[1];
  }

  /** A retired task is gone from the list the pass leaves behind: the kept
      tasks followed by the created ones. */
  lemma {:induction false} RetiredGone(ts: seq<Task>, alloc: Handle, i: nat)
    requires UniqueIds(ts) && IdsBelow(ts, alloc)
    requires i < |ts| && Retired(ts[i])
    ensures ts[i].id !in Ids(PollFrom(ts, alloc).kept + PollFrom(ts, alloc).spawned)
  {
    var r := PollFrom(ts, alloc);
    PollMatchesReference(ts, alloc);
    SurvivorsOmit(ts, i);
    SpawnedFresh(ts, alloc);
    IdsAvoid(r.kept, r.spawned, ts[i].id, alloc);
  }

  /** No task a pass keeps has the handle of a task it retires. */
  lemma {:induction false} SurvivorsOmit(ts: seq<Task>, i: nat)
    requires UniqueIds(ts) && i < |ts| && Retired(ts[i])
    ensures forall s :: s in Survivors(ts) ==> s.id != ts[i].id
  {
    SurvivorsFrom(ts);
    forall s | s in Survivors(ts) ensures s.id != ts[i].id {
      var j :| 0 <= j < |ts| && !Retired(ts[j]) && s == Settled(ts[j]);
      assert j != i;
    }
  }

  lemma {:induction false} IdsAvoid(front: seq<Task>, back: seq<Task>, x: Handle, alloc: Handle)
    requires forall s :: s in front ==> s.id != x
    requires FreshFrom(back, alloc) && x < alloc
    ensures x !in Ids(front + back)
  {
    var rest := front + back;
    forall k | 0 <= k < |rest| ensures Ids(rest)[k] != x {
      if k < |front| {
        assert rest[k] == front[k];
      } else {
        assert rest[k] == back[k - |front|];
      }
    }
  }

  /** No later pass invokes anything on behalf of a retired task. A later
      list is any list of tasks, running or not and at any count, made of
      tasks this pass left in the list or created with handles handed out
      after it. That is the hypothesis because the sweeps, creations and
      passes that follow keep handles, hand out new ones only upwards and
      never bring a freed node back; this lemma does not itself trace the
      list through them. */
  lemma {:induction false} RetiredNeverRecurs(ts: seq<Task>, alloc: Handle, i: nat, later: seq<Task>, alloc2: Handle)
    requires UniqueIds(ts) && IdsBelow(ts, alloc)
    requires i < |ts| && Retired(ts[i])
    requires var r := PollFrom(ts, alloc);
             forall k :: 0 <= k < |later| ==> later[k].id in Ids(r.kept + r.spawned) || later[k].id >= r.alloc
    ensures forall e :: e in PollFrom(later, alloc2).events ==> e.task != ts[i].id
    ensures EventsFor(PollFrom(later, alloc2).events, ts[i].id) == []
  {
    var r := PollFrom(ts, alloc);
    RetiredGone(ts, alloc, i);
    assert ts[i].id < alloc <= r.alloc;
    forall k | 0 <= k < |later| ensures later[k].id != ts[i].id {
    }
    PollMatchesReference(later, alloc2);
    EventsFromRunning(later);
    forall e | e in EventsOf(later) ensures e.task != ts[i].id {
      var k :| 0 <= k < |later| && later[k].running && e.task == later[k].id;
    }
    EventsForNone(EventsOf(later), ts[i].id);
  }

  /** The invocations of `es` made on behalf of the task `x`, in order. */
  function EventsFor(es: seq<Event>, x: Handle): (r: seq<Event>)
    ensures |r| <= |es|
  {
    if es == [] then [] else (if es[0].task == x then [es[0]] else []) + EventsFor(es[1..], x)
  }

  lemma {:induction false} EventsForNone(es: seq<Event>, x: Handle)
    requires forall e :: e in es ==> e.task != x
    ensures EventsFor(es, x) == []
    decreases |es|
  {
    if es != [] {
      assert es[0] in es;
      assert forall e :: e in es[1..] ==> e in es;
      EventsForNone(es[1..], x);
    }
  }

  lemma {:induction false} EventsForAll(es: seq<Event>, x: Handle)
    requires forall e :: e in es ==> e.task == x
    ensures EventsFor(es, x) == es
    decreases |es|
  {
    if es != [] {
      assert es[0] in es;
      assert forall e :: e in es[1..] ==> e in es;
      EventsForAll(es[1..], x);
      assert [es[0]] + es[1..] == es;
    }
  }

  lemma {:induction false} EventsForAppend(a: seq<Event>, b: seq<Event>, x: Handle)
    ensures EventsFor(a + b, x) == EventsFor(a, x) + EventsFor(b, x)
    decreases |a|
  {
    if a == [] {
      assert a + b == b;
    } else {
      assert (a + b)[0] == a[0] && (a + b)[1..] == a[1..] + b;
      EventsForAppend(a[1..], b, x);
      var h := if a[0].task == x then [a[0]] else [];
      assert h + (EventsFor(a[1..], x) + EventsFor(b, x)) == (h + EventsFor(a[1..], x)) + EventsFor(b, x);
    }
  }

  /** The invocations a pass makes on behalf of the task at `i` are exactly
      that task's: its listener's and its callback's, each at most once. */
  lemma {:induction false} EventsOfTask(ts: seq<Task>, i: nat)
    requires UniqueIds(ts) && i < |ts|
    ensures EventsFor(EventsOf(ts), ts[i].id) == TaskEvents(ts[i])
    decreases |ts|
  {
    var x := ts[i].id;
    TaskEventsOwn(ts[0]);
    EventsForAppend(TaskEvents(ts[0]), EventsOf(ts[1..]), x);
    if i == 0 {
      EventsForAll(TaskEvents(ts[0]), x);
      EventsFromRunning(ts[1..]);
      forall e | e in EventsOf(ts[1..]) ensures e.task != x {
        var k :| 0 <= k < |ts[1..]| && ts[1..][k].running && e.task == ts[1..][k].id;
        assert ts[1..][k] == ts[k + 1];
      }
      EventsForNone(EventsOf(ts[1..]), x);
      assert TaskEvents(ts[0]) + [] == TaskEvents(ts[0]);
    } else {
      assert ts[0].id != x;
      EventsForNone(TaskEvents(ts[0]), x);
      assert ts[1..][i - 1] == ts[i];
      EventsOfTask(ts[1..], i - 1);
      assert [] + TaskEvents(ts[i]) == TaskEvents(ts[i]);
    }
  }

  /** A running one-shot task with a listener, and still a callback after
      it, is served by the pass with exactly two invocations: its listener
      and then its callback. */
  lemma {:induction false} OneShotRunsOnce(ts: seq<Task>, alloc: Handle, i: nat)
    requires UniqueIds(ts) && i < |ts| && Retired(ts[i])
    requires ts[i].listener.Some? && CallbackAfterListener(ts[i]).Some?
    ensures EventsFor(PollFrom(ts, alloc).events, ts[i].id) ==
      [ListenerRan(ts[i].id, ts[i].listener.value.name), CallbackRan(ts[i].id, CallbackAfterListener(ts[i]).value.name)]
  {
    PollMatchesReference(ts, alloc);
    EventsOfTask(ts, i);
  }

  lemma {:induction false} NoOwnCallback(t: Task)
    requires t.callback.Some? && |SpawnsOf(t)| > 0
    ensures forall e :: e in TaskEvents(t) ==> !e.CallbackRan?
  {
    assert CallbackAfterListener(t) == None;
    assert TaskEvents(t) == ListenerEvents(t);
  }

  /** Callback inheritance: a running task `t` with a callback whose listener
      creates tasks does not invoke that callback itself; the first task it
      creates carries it, and every later one keeps the callback it passed.
      The tasks it creates sit side by side in the pass's tail, right after
      those created by the tasks `a` before it. */
  lemma {:induction false} InheritsOnce(a: seq<Task>, t: Task, b: seq<Task>, alloc: Handle)
    requires t.callback.Some? && |SpawnsOf(t)| > 0
    ensures forall e :: e in TaskEvents(t) ==> !e.CallbackRan?
    ensures |PollFrom(a, alloc).spawned| + |SpawnsOf(t)| <= |PollFrom(a + [t] + b, alloc).spawned|
    ensures PollFrom(a + [t] + b, alloc).spawned[|PollFrom(a, alloc).spawned|].callback == t.callback
    ensures forall q :: 0 < q < |SpawnsOf(t)| ==>
      PollFrom(a + [t] + b, alloc).spawned[|PollFrom(a, alloc).spawned| + q].callback == SpawnsOf(t)[q].callback
  {
    NoOwnCallback(t);
    var here := PollFrom(a + [t], alloc);
    PollSnoc(a, t, alloc);
    PollAppend(a + [t], b, alloc);
    InheritedInTail(t.callback, SpawnsOf(t), PollFrom(a, alloc).alloc, PollFrom(a, alloc).spawned,
                    PollFrom(b, here.alloc).spawned);
  }

  /** Where the tasks one listener creates land in the tail of the list: the
      first carries the callback `cb` it took over. */
  lemma {:induction false} InheritedInTail(cb: Option<Callback>, sp: seq<Spawn>, alloc: Handle,
                                           front: seq<Task>, back: seq<Task>)
    requires cb.Some? && |sp| > 0
    ensures ((front + Spawned(cb, sp, alloc)) + back)[|front|].callback == cb
    ensures forall q :: 0 < q < |sp| ==>
      ((front + Spawned(cb, sp, alloc)) + back)[|front| + q].callback == sp[q].callback
  {
    var made := Spawned(cb, sp, alloc);
    SpawnedShape(cb, sp, alloc);
    IndexInMiddle(front, made, back, 0);
    forall q | 0 < q < |sp|
      ensures ((front + made) + back)[|front| + q].callback == sp[q].callback
    {
      IndexInMiddle(front, made, back, q);
    }
  }

  /** The element at `q` of the middle part of a concatenation. */
  lemma IndexInMiddle<T>(x: seq<T>, y: seq<T>, z: seq<T>, q: nat)
    requires q < |y|
    ensures |x| + q < |(x + y) + z| && ((x + y) + z)[|x| + q] == y[q]
  {
  }

  /** A pass over one more task is one more step. */
  lemma {:induction false} PollSnoc(a: seq<Task>, t: Task, alloc: Handle)
    ensures PollFrom(a + [t], alloc) == Step(PollFrom(a, alloc), t)
  {
    var at := a + [t];
    assert at != [] && at[|at| - 1] == t;
    assert at[..|at| - 1] == a;
  }

}
