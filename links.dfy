/** The task list of src/tasks.c as nodes and links. Nodes live in an arena
    addressed by handle (a handle plays the part of the address malloc
    returns); a `next` link is a handle or NULL. The lemmas here say what
    each kind of update of the arena does to the list it represents. */
module Links {
  import opened Types

  /** One `struct Task`: the record and its `next` link. */
  datatype Node = Node(task: Task, next: Option<Handle>)

  /** The handle after position `i` of `order`, NULL after the last. */
  function Next(order: seq<Handle>, i: nat): Option<Handle>
    requires i < |order|
  {
    if i + 1 < |order| then Some(order[i + 1]) else None
  }

  /** Following `next` from `head` visits the nodes `order`, each once, and
      ends in NULL; every node is filed under its own handle, and every
      handle is below `limit`, the next one the allocator gives out. */
  ghost predicate Linked(order: seq<Handle>, nodes: map<Handle, Node>, head: Option<Handle>, limit: Handle)
  {
    (forall i, j :: 0 <= i < j < |order| ==> order[i] != order[j]) &&
    (forall i :: 0 <= i < |order| ==> order[i] in nodes && order[i] < limit) &&
    head == (if order == [] then None else Some(order[0])) &&
    (forall i {:trigger nodes[order[i]]} :: 0 <= i < |order| ==>
      nodes[order[i]].task.id == order[i] && nodes[order[i]].next == Next(order, i))
  }

  /** The tasks of the list, in list order. */
  function TasksOf(order: seq<Handle>, nodes: map<Handle, Node>): (ts: seq<Task>)
    requires forall i :: 0 <= i < |order| ==> order[i] in nodes
    ensures |ts| == |order|
  {
    seq(|order|, i requires 0 <= i < |order| && order[i] in nodes => nodes[order[i]].task)
  }

  /** The list with the callback of the task `cur` cleared, if there is
      such a task. */
  function Disinherit(ts: seq<Task>, cur: Option<Handle>): (r: seq<Task>)
    ensures |r| == |ts|
  {
    seq(|ts|, j requires 0 <= j < |ts| => if cur == Some(ts[j].id) then ts[j].(callback := None) else ts[j])
  }

  /** Every task of the list carries the handle of its node, so no two
      tasks of the list share an id. */
  lemma {:induction false} DistinctIds(order: seq<Handle>, nodes: map<Handle, Node>, head: Option<Handle>, limit: Handle, pos: nat)
    requires Linked(order, nodes, head, limit) && pos < |order|
    ensures var ts := TasksOf(order, nodes);
            forall j :: 0 <= j < |ts| && j != pos ==> ts[j].id != ts[pos].id
  {
    var ts := TasksOf(order, nodes);
    forall j | 0 <= j < |ts| && j != pos ensures ts[j].id != ts[pos].id {
      assert ts[j].id == order[j] && ts[pos].id == order[pos];
    }
  }

  /** Rewriting the record of the node at position `pos` (keeping its
      handle) changes that one task of the list and nothing else. */
  lemma {:induction false} SetTask(order: seq<Handle>, nodes: map<Handle, Node>, head: Option<Handle>, limit: Handle, pos: nat, t: Task)
    requires Linked(order, nodes, head, limit)
    requires pos < |order| && t.id == order[pos]
    ensures Linked(order, nodes[order[pos] := nodes[order[pos]].(task := t)], head, limit)
    ensures TasksOf(order, nodes[order[pos] := nodes[order[pos]].(task := t)]) == TasksOf(order, nodes)[pos := t]
  {
    var nodes' := nodes[order[pos] := nodes[order[pos]].(task := t)];
    forall i | 0 <= i < |order| ensures nodes'[order[i]] == if i == pos then nodes[order[i]].(task := t) else nodes[order[i]] {
    }
  }

  /** Clearing the callback of the node `c`: the list loses the callback of
      the task `c`, if `c` is in the list at all. */
  lemma {:induction false} ClearCallback(order: seq<Handle>, nodes: map<Handle, Node>, head: Option<Handle>, limit: Handle, c: Handle)
    requires Linked(order, nodes, head, limit) && c in nodes
    ensures Linked(order, nodes[c := nodes[c].(task := nodes[c].task.(callback := None))], head, limit)
    ensures TasksOf(order, nodes[c := nodes[c].(task := nodes[c].task.(callback := None))])
         == Disinherit(TasksOf(order, nodes), Some(c))
  {
    var nodes' := nodes[c := nodes[c].(task := nodes[c].task.(callback := None))];
    forall i | 0 <= i < |order|
      ensures nodes'[order[i]] == if order[i] == c then nodes[order[i]].(task := nodes[order[i]].task.(callback := None)) else nodes[order[i]]
    {
    }
    var ts, ts' := TasksOf(order, nodes), TasksOf(order, nodes');
    forall j | 0 <= j < |ts| ensures ts'[j] == Disinherit(ts, Some(c))[j] {
      assert ts[j].id == order[j];
    }
  }

  /** The arena after a new node `h` holding `t` is linked in: the last
      node takes it as its `next`, or `head` does when the list is empty. */
  function Attached(order: seq<Handle>, nodes: map<Handle, Node>, head: Option<Handle>, h: Handle, t: Task):
    (r: (map<Handle, Node>, Option<Handle>))
    requires order != [] ==> order[|order| - 1] in nodes
  {
    if order == [] then (nodes[h := Node(t, None)], Some(h))
    else (nodes[order[|order| - 1] := nodes[order[|order| - 1]].(next := Some(h))][h := Node(t, None)], head)
  }

  /** Linking a new node `h` holding `t` after the last node (or as the
      head of an empty list) appends `t` to the list. */
  lemma {:induction false} Append(order: seq<Handle>, nodes: map<Handle, Node>, head: Option<Handle>, limit: Handle, h: Handle, t: Task)
    requires Linked(order, nodes, head, limit) && limit <= h && t.id == h
    ensures var (nodes2, head2) := Attached(order, nodes, head, h, t);
            Linked(order + [h], nodes2, head2, h + 1) &&
            TasksOf(order + [h], nodes2) == TasksOf(order, nodes) + [t]
  {
    var (nodes2, head2) := Attached(order, nodes, head, h, t);
    var order2: seq<Handle> := order + [h];
    var ts2 := TasksOf(order, nodes) + [t];
    forall i | 0 <= i < |order2|
      ensures order2[i] in nodes2 && order2[i] < h + 1 && nodes2[order2[i]].task == ts2[i]
      ensures nodes2[order2[i]].task.id == order2[i] && nodes2[order2[i]].next == Next(order2, i)
    {
      if i < |order| {
        AppendedAt(order, nodes, head, limit, h, Node(t, None), nodes2, i);
        assert ts2[i] == TasksOf(order, nodes)[i];
      }
    }
    forall i, j | 0 <= i < j < |order2| ensures order2[i] != order2[j] {
      if j == |order| {
        assert order2[i] == order[i] < limit;
      } else {
        assert order2[i] == order[i] && order2[j] == order[j];
      }
    }
    assert TasksOf(order2, nodes2) == ts2;
  }

  /** A node of the list after a new last node `h` is linked in: it keeps
      its task, and its `next` is the node after it in the longer list. */
  lemma {:induction false} AppendedAt(order: seq<Handle>, nodes: map<Handle, Node>, head: Option<Handle>, limit: Handle,
                                      h: Handle, n: Node, nodes2: map<Handle, Node>, i: nat)
    requires Linked(order, nodes, head, limit) && limit <= h && i < |order|
    requires nodes2 == Attached(order, nodes, head, h, n.task).0 && n == Node(n.task, None)
    ensures order[i] in nodes2 && nodes2[order[i]].task == nodes[order[i]].task
    ensures nodes2[order[i]].next == Next(order + [h], i)
  {
    var x := order[i];
    assert x in nodes && x < limit && nodes[x].next == Next(order, i);
    var order2 := order + [h];
    assert order2[i] == x;
    if i + 1 < |order| {
      assert order2[i + 1] == order[i + 1] && order[|order| - 1] != x;
    } else {
      assert order2[i + 1] == h;
    }
  }

  /** Dropping position `pos` of a list of distinct handles keeps them
      distinct, and shifts the later ones down by one. */
  lemma {:induction false} DropAt(order: seq<Handle>, pos: nat, order2: seq<Handle>)
    requires pos < |order| && order2 == order[..pos] + order[pos + 1..]
    requires forall i, j :: 0 <= i < j < |order| ==> order[i] != order[j]
    ensures |order2| == |order| - 1
    ensures forall i {:trigger order2[i]} :: 0 <= i < |order2| ==> order2[i] == if i < pos then order[i] else order[i + 1]
    ensures forall i {:trigger order2[i]} :: 0 <= i < |order2| ==> order2[i] != order[pos]
    ensures forall i, j :: 0 <= i < j < |order2| ==> order2[i] != order2[j]
  {
    forall i | 0 <= i < |order2| ensures order2[i] == if i < pos then order[i] else order[i + 1] {
    }
    forall i, j | 0 <= i < j < |order2| ensures order2[i] != order2[j] {
      var i', j' := if i < pos then i else i + 1, if j < pos then j else j + 1;
      assert order2[i] == order[i'] && order2[j] == order[j'];
    }
  }

  /** The arena after the node at position `pos` is unlinked and freed:
      its predecessor `last` takes its `next`, or `head` does when it is the
      first. */
  function Unlinked(order: seq<Handle>, nodes: map<Handle, Node>, head: Option<Handle>, pos: nat, last: Option<Handle>):
    (r: (map<Handle, Node>, Option<Handle>))
    requires pos < |order| && order[pos] in nodes
    requires head != Some(order[pos]) ==> last.Some? && last.value in nodes
  {
    var h := order[pos];
    if head == Some(h) then (nodes - {h}, nodes[h].next)
    else (nodes[last.value := nodes[last.value].(next := nodes[h].next)] - {h}, head)
  }

  /** Unlinking and freeing the node at position `pos` removes its task from
      the list and leaves the others in order. */
  lemma {:induction false} Remove(order: seq<Handle>, nodes: map<Handle, Node>, head: Option<Handle>, limit: Handle, pos: nat, last: Option<Handle>)
    requires Linked(order, nodes, head, limit)
    requires pos < |order| && (pos > 0 ==> last == Some(order[pos - 1]))
    ensures head != Some(order[pos]) ==> last.Some? && last.value in nodes && last.value != order[pos]
    ensures nodes[order[pos]].next == Next(order, pos)
    ensures var (nodes2, head2) := Unlinked(order, nodes, head, pos, last);
            var order2: seq<Handle> := order[..pos] + order[pos + 1..];
            Linked(order2, nodes2, head2, limit) &&
            TasksOf(order2, nodes2) == TasksOf(order, nodes)[..pos] + TasksOf(order, nodes)[pos + 1..]
  {
    assert head == Some(order[pos]) <==> pos == 0;
    assert nodes[order[pos]].next == Next(order, pos);
    RemoveLinked(order, nodes, head, limit, pos, last);
    RemoveTasks(order, nodes, head, limit, pos, last);
  }

  lemma {:induction false} RemoveLinked(order: seq<Handle>, nodes: map<Handle, Node>, head: Option<Handle>, limit: Handle, pos: nat, last: Option<Handle>)
    requires Linked(order, nodes, head, limit)
    requires pos < |order| && (pos > 0 ==> last == Some(order[pos - 1]))
    requires head != Some(order[pos]) ==> last.Some? && last.value in nodes
    ensures var (nodes2, head2) := Unlinked(order, nodes, head, pos, last);
            Linked(order[..pos] + order[pos + 1..], nodes2, head2, limit)
  {
    var h := order[pos];
    var (nodes2, head2) := Unlinked(order, nodes, head, pos, last);
    var order2: seq<Handle> := order[..pos] + order[pos + 1..];
    DropAt(order, pos, order2);
    forall i | 0 <= i < |order2|
      ensures order2[i] in nodes2 && order2[i] < limit
      ensures nodes2[order2[i]].task.id == order2[i] && nodes2[order2[i]].next == Next(order2, i)
    {
      UnlinkedAt(order, nodes, head, limit, pos, last, nodes2, order2, i);
    }
    assert head2 == (if order2 == [] then None else Some(order2[0])) by {
      assert head == Some(h) <==> pos == 0;
      if pos == 0 {
        assert nodes[h].next == Next(order, 0);
      }
    }
  }

  /** One node of the list after the unlinking: it is still there, with the
      task it had, and its `next` is the node after it in the shorter list. */
  lemma {:induction false} UnlinkedAt(order: seq<Handle>, nodes: map<Handle, Node>, head: Option<Handle>, limit: Handle,
                                      pos: nat, last: Option<Handle>, nodes2: map<Handle, Node>, order2: seq<Handle>, i: nat)
    requires Linked(order, nodes, head, limit)
    requires pos < |order| && (pos > 0 ==> last == Some(order[pos - 1]))
    requires head != Some(order[pos]) ==> last.Some? && last.value in nodes
    requires nodes2 == Unlinked(order, nodes, head, pos, last).0
    requires |order2| == |order| - 1 && i < |order2|
    requires forall k {:trigger order2[k]} :: 0 <= k < |order2| ==> order2[k] == if k < pos then order[k] else order[k + 1]
    ensures order2[i] in nodes2 && order2[i] < limit && nodes2[order2[i]].task == nodes[order2[i]].task
    ensures nodes2[order2[i]].next == Next(order2, i)
  {
    var h := order[pos];
    var j := if i < pos then i else i + 1;
    var x := order[j];
    assert order2[i] == x && x != h && x in nodes && x < limit;
    assert nodes[x].next == Next(order, j);
    var after := if i + 1 < |order2| then Some(order2[i + 1]) else None;
    assert Next(order2, i) == after;
    if head == Some(h) {
      assert pos == 0;
      UnlinkedNode(nodes, h, None, x);
      assert after == Next(order, j);
    } else {
      var p := last.value;
      assert pos > 0 && p == order[pos - 1] && p != h;
      UnlinkedNode(nodes, h, last, x);
      if i + 1 == pos {
        assert x == p;
        assert nodes[h].next == Next(order, pos);
      } else {
        assert x != p;
        assert after == Next(order, j);
      }
    }
  }

  /** The arena after the node `h` is freed and the node `last`, if any,
      takes its `next`: every other node keeps its task and its link. */
  lemma {:induction false} UnlinkedNode(nodes: map<Handle, Node>, h: Handle, last: Option<Handle>, x: Handle)
    requires h in nodes && x in nodes && x != h
    requires last.Some? ==> last.value in nodes && last.value != h
    ensures var nodes2 := if last.None? then nodes - {h}
                          else nodes[last.value := nodes[last.value].(next := nodes[h].next)] - {h};
            x in nodes2 && nodes2[x].task == nodes[x].task &&
            nodes2[x].next == if last == Some(x) then nodes[h].next else nodes[x].next
  {
  }

  lemma {:induction false} RemoveTasks(order: seq<Handle>, nodes: map<Handle, Node>, head: Option<Handle>, limit: Handle, pos: nat, last: Option<Handle>)
    requires Linked(order, nodes, head, limit)
    requires pos < |order| && (pos > 0 ==> last == Some(order[pos - 1]))
    requires head != Some(order[pos]) ==> last.Some? && last.value in nodes
    ensures var (nodes2, head2) := Unlinked(order, nodes, head, pos, last);
            var order2: seq<Handle> := order[..pos] + order[pos + 1..];
            (forall i :: 0 <= i < |order2| ==> order2[i] in nodes2) &&
            TasksOf(order2, nodes2) == TasksOf(order, nodes)[..pos] + TasksOf(order, nodes)[pos + 1..]
  {
    var (nodes2, head2) := Unlinked(order, nodes, head, pos, last);
    var order2: seq<Handle> := order[..pos] + order[pos + 1..];
    DropAt(order, pos, order2);
    var ts := TasksOf(order, nodes);
    forall i | 0 <= i < |order2| ensures order2[i] in nodes2 && nodes2[order2[i]].task == ts[if i < pos then i else i + 1] {
      UnlinkedAt(order, nodes, head, limit, pos, last, nodes2, order2, i);
    }
    DropSeq(ts, pos, TasksOf(order2, nodes2));
  }

  /** A list one shorter than `ts` that holds the tasks of `ts` but the one
      at `pos`, in order, is `ts` without that task. */
  lemma {:induction false} DropSeq(ts: seq<Task>, pos: nat, ts2: seq<Task>)
    requires pos < |ts| && |ts2| == |ts| - 1
    requires forall i :: 0 <= i < |ts2| ==> ts2[i] == ts[if i < pos then i else i + 1]
    ensures ts2 == ts[..pos] + ts[pos + 1..]
  {
    var dropped := ts[..pos] + ts[pos + 1..];
    forall i | 0 <= i < |ts2| ensures ts2[i] == dropped[i] {
      if i < pos {
        assert dropped[i] == ts[i];
      } else {
        assert dropped[i] == ts[i + 1];
      }
    }
  }
}
