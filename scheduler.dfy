/** The scheduler of src/tasks.c as the program keeps it: the list of task
    nodes reached from the global `tasks`, and the global `current`. */
module Scheduler {
  import opened Types
  import opened TickSweep
  import opened Dispatch
  import opened Links

  /** The list while a poll pass is under way: the tasks it kept (`acc`),
      the tasks of the original list still ahead (`rest`), and the tasks
      created so far at the tail. */
  function Midway(acc: Outcome, rest: seq<Task>): seq<Task>
  {
    acc.kept + rest + acc.spawned
  }

  /** The list once the listener of the running task at `pos` has returned:
      the task may have lost its callback to the first task it created, and
      the created tasks are at the tail. */
  function Fired(ts: seq<Task>, pos: nat, alloc: Handle): seq<Task>
    requires pos < |ts|
  {
    ts[pos := ts[pos].(callback := CallbackAfterListener(ts[pos]))] + Spawned(ts[pos].callback, SpawnsOf(ts[pos]), alloc)
  }

  /** The list once the running task at `pos` has been dispatched: a one-shot
      task is unlinked, a repeating one settles in place. */
  function Dispatched(ts: seq<Task>, pos: nat, alloc: Handle): seq<Task>
    requires pos < |ts|
  {
    var fired := Fired(ts, pos, alloc);
    if Retired(ts[pos]) then fired[..pos] + fired[pos + 1..] else fired[pos := Settled(ts[pos])]
  }

  /** Before the pass has walked past anything, the list is the original
      one and the whole pass lies ahead. */
  lemma {:induction false} PassStarts(ts: seq<Task>, alloc: Handle)
    ensures PollFrom([], alloc) == Outcome([], [], [], alloc)
    ensures Midway(PollFrom([], alloc), ts) == ts
    ensures PollOnto(PollFrom([], alloc), ts) == PollFrom(ts, alloc)
  {
    assert [] + ts + [] == ts;
    PollOntoFrom([], ts, alloc);
    assert [] + ts == ts;
  }

  /** What the pass finds at its position: the next task of the original
      list while there is one, and afterwards only idle tasks created on the
      way. */
  lemma {:induction false} MidwayAt(acc: Outcome, rest: seq<Task>, pos: nat)
    requires pos < |Midway(acc, rest)|
    requires rest != [] ==> pos == |acc.kept|
    requires rest == [] ==> |acc.kept| <= pos && AllIdle(acc.spawned)
    ensures rest != [] ==> Midway(acc, rest)[pos] == rest[0]
    ensures rest == [] ==> !Midway(acc, rest)[pos].running
  {
    if rest == [] {
      assert Midway(acc, rest)[pos] == acc.spawned[pos - |acc.kept|];
    }
  }

  /** The pass walks past an idle task without changing anything. */
  lemma {:induction false} IdleStep(acc: Outcome, t: Task, rest: seq<Task>)
    requires !t.running
    ensures var acc' := Step(acc, t);
            Midway(acc', rest) == Midway(acc, [t] + rest) &&
            |acc'.kept| == |acc.kept| + 1 && acc'.events == acc.events && acc'.alloc == acc.alloc
  {
    assert Spawned(t.callback, SpawnsOf(t), acc.alloc) == [];
  }

  /** Dispatching the task `t` of `kept + [t] + rest + spawned` in place,
      appending `sp` at the tail, then settling it to `s`. */
  lemma {:induction false} KeepShape(kept: seq<Task>, t: Task, rest: seq<Task>, spawned: seq<Task>, sp: seq<Task>, t': Task, s: Task)
    ensures ((kept + [t] + rest + spawned)[|kept| := t'] + sp)[|kept| := s] == kept + [s] + rest + (spawned + sp)
  {
    var x, y := ((kept + [t] + rest + spawned)[|kept| := t'] + sp)[|kept| := s], kept + [s] + rest + (spawned + sp);
    assert |x| == |y|;
    forall i | 0 <= i < |x| ensures x[i] == y[i] {
    }
  }

  /** Dispatching the task `t` of `kept + [t] + rest + spawned` in place,
      appending `sp` at the tail, then unlinking it. */
  lemma {:induction false} RetireShape(kept: seq<Task>, t: Task, rest: seq<Task>, spawned: seq<Task>, sp: seq<Task>, t': Task)
    ensures var fired := (kept + [t] + rest + spawned)[|kept| := t'] + sp;
            fired[..|kept|] + fired[|kept| + 1..] == kept + rest + (spawned + sp)
  {
    var fired := (kept + [t] + rest + spawned)[|kept| := t'] + sp;
    var x, y := fired[..|kept|] + fired[|kept| + 1..], kept + rest + (spawned + sp);
    assert |x| == |y|;
    forall i | 0 <= i < |x| ensures x[i] == y[i] {
      if i < |kept| {
        assert x[i] == fired[i];
      } else {
        assert x[i] == fired[i + 1];
      }
    }
  }

  /** The pass dispatches a running repeating task: after its listener the
      task at the pass's position is settled, and the tasks the listener
      created are at the tail. */
  lemma {:induction false} KeepStep(acc: Outcome, t: Task, rest: seq<Task>, after: seq<Task>)
    requires t.running && !Retired(t)
    requires after == (Midway(acc, [t] + rest)[|acc.kept| := t.(callback := CallbackAfterListener(t))]
                       + Spawned(t.callback, SpawnsOf(t), acc.alloc))[|acc.kept| := Settled(t)]
    ensures var acc' := Step(acc, t);
            after == Midway(acc', rest) && |acc'.kept| == |acc.kept| + 1 &&
            acc'.events == acc.events + ListenerEvents(t) && acc'.alloc == acc.alloc + |SpawnsOf(t)|
  {
    KeepShape(acc.kept, t, rest, acc.spawned, Spawned(t.callback, SpawnsOf(t), acc.alloc),
              t.(callback := CallbackAfterListener(t)), Settled(t));
    assert CallbackEvents(t) == [];
  }

  /** The pass dispatches a running one-shot task: after its listener and
      callback the task is unlinked, and the tasks its listener created are
      at the tail. */
  lemma {:induction false} RetireStep(acc: Outcome, t: Task, rest: seq<Task>, after: seq<Task>)
    requires Retired(t)
    requires var fired := Midway(acc, [t] + rest)[|acc.kept| := t.(callback := CallbackAfterListener(t))]
                          + Spawned(t.callback, SpawnsOf(t), acc.alloc);
             after == fired[..|acc.kept|] + fired[|acc.kept| + 1..]
    ensures var acc' := Step(acc, t);
            after == Midway(acc', rest) && acc'.kept == acc.kept &&
            acc'.events == acc.events + ListenerEvents(t) + CallbackEvents(t) &&
            acc'.alloc == acc.alloc + |SpawnsOf(t)|
  {
    var sp := Spawned(t.callback, SpawnsOf(t), acc.alloc);
    RetireShape(acc.kept, t, rest, acc.spawned, sp, t.(callback := CallbackAfterListener(t)));
    assert Step(acc, t).kept == acc.kept + [];
  }

  /** The list while the listener of the task at `pos` runs, after its
      first `i` Tasks_create calls: the task keeps its callback `cb0` until
      the first call hands it on, and the created tasks sit at the tail. */
  function Listening(ts0: seq<Task>, pos: nat, cb0: Option<Callback>, sp: seq<Spawn>, i: nat, base: Handle): seq<Task>
    requires pos < |ts0| && i <= |sp|
  {
    ts0[pos := ts0[pos].(callback := if i > 0 then None else cb0)] + Spawned(cb0, sp[..i], base)
  }

  lemma ListeningStarts(ts0: seq<Task>, pos: nat, sp: seq<Spawn>, base: Handle)
    requires pos < |ts0|
    ensures Listening(ts0, pos, ts0[pos].callback, sp, 0, base) == ts0
  {
    assert ts0[pos := ts0[pos]] == ts0;
  }

  lemma ListeningEnds(ts0: seq<Task>, pos: nat, sp: seq<Spawn>, base: Handle)
    requires pos < |ts0|
    ensures Listening(ts0, pos, ts0[pos].callback, sp, |sp|, base)
         == ts0[pos := ts0[pos].(callback := if |sp| > 0 then None else ts0[pos].callback)]
            + Spawned(ts0[pos].callback, sp, base)
  {
    assert sp[..|sp|] == sp;
  }

  /** One Tasks_create call made by the listener of the task at `pos`,
      after `i` earlier ones: the list it leaves is the list with the
      listener's task disinherited and the first `i + 1` creations at the
      tail. */
  lemma {:induction false} ListenerCreates(ts0: seq<Task>, pos: nat, cb0: Option<Callback>, sp: seq<Spawn>, i: nat,
                        base: Handle, before: seq<Task>, cur: Option<Handle>, hNew: Handle, cc: Option<Callback>,
                        after: seq<Task>)
    requires pos < |ts0| && ts0[pos].callback == cb0 && i < |sp|
    requires before == Listening(ts0, pos, cb0, sp, i, base)
    requires forall j :: 0 <= j < |before| && j != pos ==> before[j].id != before[pos].id
    requires cur == if before[pos].callback.Some? then Some(before[pos].id) else None
    requires hNew == base + i && cc == before[pos].callback
    requires after == Disinherit(before, cur) + [NewTask(hNew, sp[i].millis, sp[i].schedule, sp[i].listener, Or(cc, sp[i].callback))]
    ensures after == Listening(ts0, pos, cb0, sp, i + 1, base)
  {
    var cleared := ts0[pos := ts0[pos].(callback := None)];
    var made := Spawned(cb0, sp[..i], base);
    assert Disinherit(before, cur) == cleared + made by {
      forall j | 0 <= j < |before| ensures Disinherit(before, cur)[j] == (cleared + made)[j] {
      }
    }
    SpawnedSnoc(cb0, sp, i, base);
  }

  /** A 16-bit counter one step on from `k` counted modulo 2^16. */
  lemma {:induction false} CountWraps(k: nat)
    ensures (k % 0x1_0000 + 1) % 0x1_0000 == (k + 1) % 0x1_0000
  {
  }

  /** `ts` with its first `k` tasks swept: the list part-way through a tick. */
  function TickedUpTo(ts: seq<Task>, k: nat): (r: seq<Task>)
    ensures |r| == |ts|
  {
    seq(|ts|, j requires 0 <= j < |ts| => if j < k then TickTask(ts[j]) else ts[j])
  }

  lemma TickedNone(ts: seq<Task>)
    ensures TickedUpTo(ts, 0) == ts
  {
  }

  lemma TickedOneMore(ts: seq<Task>, k: nat)
    requires k < |ts|
    ensures TickedUpTo(ts, k)[k := TickTask(ts[k])] == TickedUpTo(ts, k + 1)
  {
  }

  lemma TickedAll(ts: seq<Task>)
    ensures TickedUpTo(ts, |ts|) == TickAll(ts)
  {
  }

  class TaskList {
    /** The heap of task nodes, by handle. */
    var nodes: map<Handle, Node>
    /** The global `tasks`: the first node of the list. */
    var head: Option<Handle>
    /** The global `current`: the task whose listener is running. */
    var current: Option<Handle>
    /** The next handle the allocator gives out; freed handles are not reused. */
    var nextHandle: Handle
    /** The listener and callback invocations made so far. */
    var trace: seq<Event>
    /** The handles of the list, from `head` along the `next` links. */
    ghost var order: seq<Handle>

    ghost predicate Valid()
      reads this
    {
      Linked(order, nodes, head, nextHandle) && (current.Some? ==> current.value in nodes)
    }

    /** The tasks of the list, in list order. */
    ghost function Tasks(): seq<Task>
      reads this
      requires Valid()
    {
      TasksOf(order, nodes)
    }

    /** The callback of the task whose listener is running, if any. */
    ghost function CurrentCallback(): Option<Callback>
      reads this
      requires Valid()
    {
      if current.Some? then nodes[current.value].task.callback else None
    }

    /** The list starts empty and no task is current (src/tasks.c:27-28). */
    constructor ()
      ensures Valid() && Tasks() == [] && current == None && trace == [] && nextHandle == 0
    {
      nodes, head, current, nextHandle, trace := map[], None, None, 0, [];
      order := [];
    }

    /** One timer-compare interrupt: every task that is not running counts a
        tick and, once its count reaches its period, starts over from 0 and
        is marked running. The list itself is left as it was. */
    method Tick()
      requires Valid()
      modifies this
      ensures Valid()
      ensures order == old(order) && head == old(head)
      ensures Tasks() == TickAll(old(Tasks()))
      ensures current == old(current) && nextHandle == old(nextHandle) && trace == old(trace)
    {
      ghost var ts0 := Tasks();
      var node := head;
      ghost var k := 0;
      TickedNone(ts0);
      while node.Some?
        invariant Valid() && 0 <= k <= |order| == |ts0|
        invariant order == old(order) && head == old(head)
        invariant current == old(current) && nextHandle == old(nextHandle) && trace == old(trace)
        invariant node == if k < |order| then Some(order[k]) else None
        invariant Tasks() == TickedUpTo(ts0, k)
        decreases |order| - k
      {
        var h := node.value;
        var n := nodes[h];
        assert n.next == Next(order, k);
        TickNode(h, k);
        TickedOneMore(ts0, k);
        node := n.next;
        k := k + 1;
      }
      TickedAll(ts0);
    }

    /** Lines 36-40 of the tick handler, for the node `h` at position `k`:
        a task that is not running counts one tick and, once the count
        reaches its period, starts over from 0 and is marked running. */
    method TickNode(h: Handle, ghost k: nat)
      requires Valid() && k < |order| && order[k] == h
      modifies this
      ensures Valid()
      ensures order == old(order) && head == old(head)
      ensures Tasks() == old(Tasks())[k := TickTask(old(Tasks())[k])]
      ensures current == old(current) && nextHandle == old(nextHandle) && trace == old(trace)
    {
      var n := nodes[h];
      assert n.task == Tasks()[k];
      if !n.task.running {
        var t := n.task.(ticks := n.task.ticks + 1);
        if t.ticks >= t.millis {
          t := t.(ticks := 0, running := true);
        }
        SetTask(order, nodes, head, nextHandle, k, t);
        nodes := nodes[h := n.(task := t)];
      } else {
        assert Tasks()[k := TickTask(Tasks()[k])] == Tasks();
      }
    }

    /** Tasks_size: the number of nodes, counted in a 16-bit counter. */
    method Size() returns (n: uint16)
      requires Valid()
      ensures n == |Tasks()| % 0x1_0000
    {
      n := 0;
      var node := head;
      ghost var k := 0;
      while node.Some?
        invariant 0 <= k <= |order|
        invariant node == if k < |order| then Some(order[k]) else None
        invariant n == k % 0x1_0000
        decreases |order| - k
      {
        assert nodes[order[k]].next == Next(order, k);
        CountWraps(k);
        n := (n + 1) % 0x1_0000;
        node := nodes[node.value].next;
        k := k + 1;
      }
    }

    /** Tasks_create: a new idle node at count 0 goes to the tail of the
        list. When a task is current and still has a callback, the new task
        takes that callback instead of the one passed and the current task
        loses it. The handle of the new node is returned. */
    method Create(millis: uint16, schedule: Schedule, listener: Option<Listener>, callback: Option<Callback>)
      returns (h: Handle)
      requires Valid()
      modifies this
      ensures Valid()
      ensures h == old(nextHandle) && nextHandle == old(nextHandle) + 1
      ensures order == old(order) + [h]
      ensures Tasks() == Disinherit(old(Tasks()), if old(CurrentCallback()).Some? then old(current) else None) +
                         [NewTask(h, millis, schedule, listener, Or(old(CurrentCallback()), callback))]
      ensures current == old(current) && trace == old(trace)
    {
      ghost var ts0 := Tasks();
      h := nextHandle;
      var task := NewTask(h, millis, schedule, listener, callback);
      if current.Some? && nodes[current.value].task.callback.Some? {
        var c := current.value;
        task := task.(callback := nodes[c].task.callback);
        ClearCallback(order, nodes, head, nextHandle, c);
        nodes := nodes[c := nodes[c].(task := nodes[c].task.(callback := None))];
      } else {
        assert Disinherit(ts0, None) == ts0;
      }
      Link(h, task);
    }

    /** The tail walk of Tasks_create: the node `h` holding `task` becomes
        the `next` of the last node, or the head of an empty list; `h` is
        the handle the allocator gives out. */
    method Link(h: Handle, task: Task)
      requires Valid() && h == nextHandle && task.id == h
      modifies this
      ensures Valid()
      ensures order == old(order) + [h] && Tasks() == old(Tasks()) + [task]
      ensures nextHandle == old(nextHandle) + 1
      ensures current == old(current) && trace == old(trace)
    {
      Append(order, nodes, head, nextHandle, h, task);
      ghost var linked := Attached(order, nodes, head, h, task);
      if head.None? {
        head := Some(h);
      } else {
        var parent := LastNode();
        nodes := nodes[parent := nodes[parent].(next := Some(h))];
      }
      nodes := nodes[h := Node(task, None)];
      assert (nodes, head) == linked;
      order := order + [h];
      nextHandle := nextHandle + 1;
    }

    /** The walk of Tasks_create to the last node of a list that is not
        empty: from `tasks` along `next` until a node whose `next` is NULL. */
    method LastNode() returns (parent: Handle)
      requires Valid() && head.Some?
      ensures |order| > 0 && parent == order[|order| - 1]
    {
      parent := head.value;
      ghost var i := 0;
      while nodes[parent].next.Some?
        invariant 0 <= i < |order| && parent == order[i]
        decreases |order| - i
      {
        assert nodes[order[i]].next == Next(order, i);
        parent := nodes[parent].next.value;
        i := i + 1;
      }
      assert nodes[order[i]].next == Next(order, i);
    }

    /** Where Tasks_poll's walk stands: `node` is at position `pos` of the
        list and `last` just before it; the pass so far (`acc`, having made
        the invocations after `trace0`) has kept `acc.kept` and created
        `acc.spawned`, and `rest` of the original tasks lie ahead. */
    ghost predicate Walking(trace0: seq<Event>, acc: Outcome, rest: seq<Task>, pos: nat,
                            node: Option<Handle>, last: Option<Handle>)
      reads this
    {
      Valid() && current == None && pos <= |order| &&
      Tasks() == Midway(acc, rest) && trace == trace0 + acc.events && nextHandle == acc.alloc &&
      AllIdle(acc.spawned) &&
      (rest != [] ==> pos == |acc.kept|) && (rest == [] ==> |acc.kept| <= pos) &&
      node == (if pos < |order| then Some(order[pos]) else None) &&
      (pos > 0 ==> last == Some(order[pos - 1]))
    }

    /** The walk starts at `tasks` with nothing done. */
    lemma {:induction false} WalkStarts()
      requires Valid() && current == None
      ensures Walking(trace, PollFrom([], nextHandle), Tasks(), 0, head, head)
      ensures PollOnto(PollFrom([], nextHandle), Tasks()) == PollFrom(Tasks(), nextHandle)
    {
      PassStarts(Tasks(), nextHandle);
      assert trace == trace + [];
    }

    /** The walk ends at NULL, past every task of the original list. */
    lemma {:induction false} WalkEnds(trace0: seq<Event>, acc: Outcome, rest: seq<Task>, pos: nat, last: Option<Handle>)
      requires Walking(trace0, acc, rest, pos, None, last)
      ensures rest == [] && PollOnto(acc, rest) == acc
      ensures Tasks() == acc.kept + acc.spawned
    {
      assert Midway(acc, []) == acc.kept + acc.spawned;
    }

    /** Tasks_poll: walks the list once. A task that is not running is
        passed over. A running task is dispatched; the walk goes on from the
        node after it. Tasks created by listeners on the way are appended at
        the tail; they are idle, so the walk passes over them. */
    method Poll()
      requires Valid() && current == None
      modifies this
      ensures Valid() && current == None
      ensures var r := PollFrom(old(Tasks()), old(nextHandle));
              Tasks() == r.kept + r.spawned && trace == old(trace) + r.events && nextHandle == r.alloc
    {
      ghost var trace0, goal := trace, PollFrom(Tasks(), nextHandle);
      WalkStarts();
      var node := head;
      var last := node;
      ghost var pos, rest, acc := 0, Tasks(), PollFrom([], nextHandle);
      while node.Some?
        invariant Walking(trace0, acc, rest, pos, node, last)
        invariant PollOnto(acc, rest) == goal
        decreases |rest|, |order| - pos
      {
        var h := node.value;
        if nodes[h].task.running {
          node, last, acc, rest, pos := RunNode(h, last, trace0, acc, rest, pos);
        } else {
          node, last, acc, rest, pos := PassOver(h, last, trace0, acc, rest, pos);
        }
      }
      WalkEnds(trace0, acc, rest, pos, last);
    }

    /** One turn of Tasks_poll's loop at an idle node `h`: the walk moves on. */
    method PassOver(h: Handle, last: Option<Handle>, ghost trace0: seq<Event>, ghost acc: Outcome,
                    ghost rest: seq<Task>, ghost pos: nat)
      returns (node': Option<Handle>, last': Option<Handle>, ghost acc': Outcome, ghost rest': seq<Task>, ghost pos': nat)
      requires Walking(trace0, acc, rest, pos, Some(h), last) && !nodes[h].task.running
      ensures Walking(trace0, acc', rest', pos', node', last')
      ensures PollOnto(acc', rest') == PollOnto(acc, rest)
      ensures |rest'| < |rest| || (rest' == rest && |order| - pos' < |order| - pos)
      ensures pos' == pos + 1 && last' == Some(h) && node' == nodes[h].next
      ensures if rest != [] then acc' == Step(acc, rest[0]) && rest' == rest[1..] else acc' == acc && rest' == rest
    {
      assert nodes[h].task == Tasks()[pos] && nodes[h].next == Next(order, pos);
      MidwayAt(acc, rest, pos);
      acc', rest' := acc, rest;
      if rest != [] {
        assert rest == [rest[0]] + rest[1..];
        IdleStep(acc, rest[0], rest[1..]);
        acc', rest' := Step(acc, rest[0]), rest[1..];
      }
      last' := Some(h);
      node' := nodes[h].next;
      pos' := pos + 1;
    }

    /** One turn of Tasks_poll's loop at a running node `h`: it is dispatched,
        and the walk goes on from the node after it; `last` moves on unless
        the node was freed. */
    method RunNode(h: Handle, last: Option<Handle>, ghost trace0: seq<Event>, ghost acc: Outcome,
                    ghost rest: seq<Task>, ghost pos: nat)
      returns (node': Option<Handle>, last': Option<Handle>, ghost acc': Outcome, ghost rest': seq<Task>, ghost pos': nat)
      requires Walking(trace0, acc, rest, pos, Some(h), last) && nodes[h].task.running
      modifies this
      ensures Walking(trace0, acc', rest', pos', node', last')
      ensures PollOnto(acc', rest') == PollOnto(acc, rest)
      ensures |rest'| < |rest|
      ensures rest != [] && acc' == Step(acc, rest[0]) && rest' == rest[1..]
      ensures if Retired(rest[0]) then last' == last && pos' == pos else last' == Some(h) && pos' == pos + 1
    {
      assert nodes[h].task == Tasks()[pos];
      MidwayAt(acc, rest, pos);
      assert rest == [rest[0]] + rest[1..];
      ghost var t, tail := rest[0], rest[1..];
      ghost var order0 := order;
      var freed;
      node', freed := RunTask(h, pos, last);
      acc', rest' := Step(acc, t), tail;
      if freed {
        RetiredWalk(trace0, acc, t, tail, pos, order0, node', last);
        last', pos' := last, pos;
      } else {
        KeptWalk(trace0, acc, t, tail, pos, node', h);
        last', pos' := Some(h), pos + 1;
      }
    }

    /** The walk after a one-shot task at `pos` was dispatched and unlinked:
        it stays at `pos`, which now holds the next node. */
    lemma {:induction false} RetiredWalk(trace0: seq<Event>, acc: Outcome, t: Task, tail: seq<Task>, pos: nat,
                                         order0: seq<Handle>, node: Option<Handle>, last: Option<Handle>)
      requires Valid() && current == None
      requires Retired(t) && pos == |acc.kept| && AllIdle(acc.spawned) && pos < |order0|
      requires pos > 0 ==> last == Some(order0[pos - 1])
      requires pos < |Midway(acc, [t] + tail)| && Midway(acc, [t] + tail)[pos] == t
      requires Tasks() == Dispatched(Midway(acc, [t] + tail), pos, acc.alloc)
      requires trace == trace0 + acc.events + TaskEvents(t)
      requires nextHandle == acc.alloc + |SpawnsOf(t)|
      requires order[..pos] == order0[..pos]
      requires node == if pos < |order| then Some(order[pos]) else None
      ensures Walking(trace0, Step(acc, t), tail, pos, node, last)
    {
      RetireStep(acc, t, tail, Tasks());
      StepIdle(acc, t);
      if pos > 0 {
        assert order[..pos][pos - 1] == order0[..pos][pos - 1];
      }
    }

    /** The walk after a repeating task `h` at `pos` was dispatched: it moves
        on to the node after it. */
    lemma {:induction false} KeptWalk(trace0: seq<Event>, acc: Outcome, t: Task, tail: seq<Task>, pos: nat,
                                      node: Option<Handle>, h: Handle)
      requires Valid() && current == None
      requires t.running && !Retired(t) && pos == |acc.kept| && AllIdle(acc.spawned)
      requires pos < |Midway(acc, [t] + tail)| && Midway(acc, [t] + tail)[pos] == t
      requires Tasks() == Dispatched(Midway(acc, [t] + tail), pos, acc.alloc)
      requires trace == trace0 + acc.events + TaskEvents(t)
      requires nextHandle == acc.alloc + |SpawnsOf(t)|
      requires pos < |order| && order[pos] == h
      requires node == if pos + 1 < |order| then Some(order[pos + 1]) else None
      ensures Walking(trace0, Step(acc, t), tail, pos + 1, node, Some(h))
    {
      KeepStep(acc, t, tail, Tasks());
      StepIdle(acc, t);
    }

    /** The body of Tasks_poll's loop for a running task `h` at position
        `pos`, `last` being the node before it: its listener is fired; a
        one-shot task then has its callback, if it still has one, invoked and
        is unlinked and freed (`freed`); a repeating task is marked not
        running. `next` is the node the walk goes on with. */
    method RunTask(h: Handle, ghost pos: nat, last: Option<Handle>) returns (next: Option<Handle>, freed: bool)
      requires Valid() && current == None
      requires pos < |order| && order[pos] == h && (pos > 0 ==> last == Some(order[pos - 1]))
      requires Tasks()[pos].running
      modifies this
      ensures Valid() && current == None
      ensures freed == Retired(old(Tasks())[pos])
      ensures Tasks() == Dispatched(old(Tasks()), pos, old(nextHandle))
      ensures nextHandle == old(nextHandle) + |SpawnsOf(old(Tasks())[pos])|
      ensures trace == old(trace) + TaskEvents(old(Tasks())[pos])
      ensures freed ==> order[..pos] == old(order)[..pos] && next == if pos < |order| then Some(order[pos]) else None
      ensures !freed ==> pos < |order| && order[pos] == h && next == if pos + 1 < |order| then Some(order[pos + 1]) else None
    {
      ghost var ts0, t, alloc0, trace0 := Tasks(), Tasks()[pos], nextHandle, trace;
      Fire(h, pos);
      assert Tasks()[pos] == t.(callback := CallbackAfterListener(t));
      if nodes[h].task.schedule == OneShot {
        next := Expire(h, pos, last);
        freed := true;
      } else {
        next := Settle(h, pos);
        freed := false;
      }
    }

    /** Lines 75-91 of Tasks_poll, for the one-shot task `h` at position
        `pos` whose listener has run: its callback, if it has one, is
        invoked; then the node is unlinked and freed, and the walk goes on
        with the node that took its place. */
    method Expire(h: Handle, ghost pos: nat, last: Option<Handle>) returns (next: Option<Handle>)
      requires Valid() && current == None
      requires pos < |order| && order[pos] == h && (pos > 0 ==> last == Some(order[pos - 1]))
      modifies this
      ensures Valid() && current == None
      ensures Tasks() == old(Tasks())[..pos] + old(Tasks())[pos + 1..]
      ensures trace == old(trace) + CallbackCall(old(Tasks())[pos])
      ensures nextHandle == old(nextHandle)
      ensures order[..pos] == old(order)[..pos]
      ensures next == if pos < |order| then Some(order[pos]) else None
    {
      assert nodes[h].task == Tasks()[pos];
      if nodes[h].task.callback.Some? {
        trace := trace + [CallbackRan(h, nodes[h].task.callback.value.name)];
      }
      ghost var order0 := order;
      next := Retire(h, pos, last);
      assert order[..pos] == order0[..pos];
    }

    /** Line 96 of Tasks_poll: the repeating task `h` at position `pos` has
        been executed and is no longer running; the walk goes on with the
        node after it. */
    method Settle(h: Handle, ghost pos: nat) returns (next: Option<Handle>)
      requires Valid() && pos < |order| && order[pos] == h
      modifies this
      ensures Valid() && order == old(order)
      ensures Tasks() == old(Tasks())[pos := old(Tasks())[pos].(running := false)]
      ensures next == Next(order, pos)
      ensures current == old(current) && nextHandle == old(nextHandle) && trace == old(trace)
    {
      assert nodes[h].task == Tasks()[pos];
      SetTask(order, nodes, head, nextHandle, pos, Tasks()[pos].(running := false));
      nodes := nodes[h := nodes[h].(task := nodes[h].task.(running := false))];
      next := nodes[h].next;
    }

    /** Lines 68-72 of Tasks_poll for the running task `h` at position
        `pos`: its listener, if it has one, is invoked with the task as
        `current`. The listener's Tasks_create calls append tasks at the
        tail, the first of them taking over the task's callback. */
    method Fire(h: Handle, ghost pos: nat)
      requires Valid() && current == None
      requires pos < |order| && order[pos] == h && Tasks()[pos].running
      modifies this
      ensures Valid() && current == None
      ensures var t := old(Tasks())[pos];
              |order| == |old(order)| + |SpawnsOf(t)| && order[..|old(order)|] == old(order) &&
              nextHandle == old(nextHandle) + |SpawnsOf(t)| &&
              trace == old(trace) + ListenerEvents(t)
      ensures Tasks() == Fired(old(Tasks()), pos, old(nextHandle))
    {
      ghost var t := Tasks()[pos];
      if nodes[h].task.listener.Some? {
        current := Some(h);
        RunListener(h, pos, nodes[h].task.listener.value);
        current := None;
      } else {
        assert Tasks()[pos := t.(callback := CallbackAfterListener(t))] == Tasks();
      }
    }

    /** A listener running while its task `h`, at position `pos` of the
        list, is current: it makes the Tasks_create calls of its `spawns`,
        one after the other. */
    method RunListener(h: Handle, ghost pos: nat, l: Listener)
      requires Valid() && current == Some(h)
      requires pos < |order| && order[pos] == h && Tasks()[pos].listener == Some(l)
      modifies this
      ensures Valid() && current == Some(h)
      ensures |order| == |old(order)| + |l.spawns| && order[..|old(order)|] == old(order)
      ensures nextHandle == old(nextHandle) + |l.spawns|
      ensures trace == old(trace) + [ListenerRan(h, l.name)]
      ensures var t := old(Tasks())[pos];
              Tasks() == old(Tasks())[pos := t.(callback := if |l.spawns| > 0 then None else t.callback)]
                         + Spawned(t.callback, l.spawns, old(nextHandle))
    {
      ghost var ts0 := Tasks();
      ghost var cb0 := ts0[pos].callback;
      ghost var base := nextHandle;
      assert ts0[pos].id == h;
      trace := trace + [ListenerRan(h, l.name)];
      ListeningStarts(ts0, pos, l.spawns, base);
      var i := 0;
      while i < |l.spawns|
        invariant 0 <= i <= |l.spawns|
        invariant Valid() && current == Some(h)
        invariant |order| == |ts0| + i && old(order) <= order
        invariant nextHandle == base + i
        invariant trace == old(trace) + [ListenerRan(h, l.name)]
        invariant Tasks() == Listening(ts0, pos, cb0, l.spawns, i, base)
      {
        CreateFor(h, pos, l.spawns[i], ts0, cb0, l.spawns, i, base);
        i := i + 1;
      }
      ListeningEnds(ts0, pos, l.spawns, base);
      assert order[..|ts0|] == old(order);
    }

    /** The `i`-th Tasks_create call of the listener of the task `h` at
        position `pos`, which creates `s`: the new task goes to the tail and
        takes over `h`'s callback if `h` still has one. */
    method CreateFor(h: Handle, ghost pos: nat, s: Spawn, ghost ts0: seq<Task>, ghost cb0: Option<Callback>,
                     ghost sp: seq<Spawn>, ghost i: nat, ghost base: Handle)
      requires Valid() && current == Some(h)
      requires pos < |ts0| && ts0[pos].callback == cb0 && i < |sp| && s == sp[i]
      requires pos < |order| && order[pos] == h && nextHandle == base + i
      requires Tasks() == Listening(ts0, pos, cb0, sp, i, base)
      modifies this
      ensures Valid() && current == Some(h)
      ensures order == old(order) + [old(nextHandle)] && nextHandle == old(nextHandle) + 1 && trace == old(trace)
      ensures Tasks() == Listening(ts0, pos, cb0, sp, i + 1, base)
    {
      ghost var before := Tasks();
      ghost var cc := CurrentCallback();
      assert before[pos] == nodes[h].task;
      DistinctIds(order, nodes, head, nextHandle, pos);
      var hNew := Create(s.millis, s.schedule, s.listener, s.callback);
      ghost var cur := if cc.Some? then Some(h) else None;
      ListenerCreates(ts0, pos, cb0, sp, i, base, before, cur, hNew, cc, Tasks());
    }

    /** Lines 80-91 of Tasks_poll: the node `h` at position `pos` is
        unlinked (from `tasks` when it is the first node, otherwise from its
        predecessor `last`) and freed; its `next` is returned. */
    method Retire(h: Handle, ghost pos: nat, last: Option<Handle>) returns (next: Option<Handle>)
      requires Valid() && current == None
      requires pos < |order| && order[pos] == h && (pos > 0 ==> last == Some(order[pos - 1]))
      modifies this
      ensures Valid() && current == None && h !in nodes
      ensures order == old(order)[..pos] + old(order)[pos + 1..]
      ensures Tasks() == old(Tasks())[..pos] + old(Tasks())[pos + 1..]
      ensures next == Next(old(order), pos)
      ensures nextHandle == old(nextHandle) && trace == old(trace)
    {
      Remove(order, nodes, head, nextHandle, pos, last);
      if head == Some(h) {
        head := nodes[h].next;
      } else {
        nodes := nodes[last.value := nodes[last.value].(next := nodes[h].next)];
      }
      next := nodes[h].next;
      nodes := nodes - {h};
      order := order[..pos] + order[pos + 1..];
    }
  }
}
