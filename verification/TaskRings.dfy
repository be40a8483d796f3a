/** The scheduler's four global lists, threaded through the one list node in each task's record. */
module TaskRings {
  import opened SchedulerSpec
  import opened Ring

  /** The nodes of a ring of tasks. */
  ghost function NodesOf(ring: seq<TaskId>, node: map<TaskId, ListHead>): (nodes: seq<ListHead>)
    requires forall t :: t in ring ==> t in node
    ensures |nodes| == |ring|
    ensures forall i :: 0 <= i < |ring| ==> nodes[i] == node[ring[i]]
  {
    if ring == [] then [] else [node[ring[0]]] + NodesOf(ring[1..], node)
  }

  /** A list runs through the nodes of these tasks, in order. */
  ghost predicate Carries(list: Queue, ring: seq<TaskId>, node: map<TaskId, ListHead>)
    reads list, list.items
  {
    && list.Valid()
    && (forall t :: t in ring ==> t in node)
    && list.items == NodesOf(ring, node)
  }

  /** Every node is known to its own task. */
  ghost predicate Owned(node: map<TaskId, ListHead>, owner: map<ListHead, TaskId>) {
    forall t :: t in node ==> node[t] in owner && owner[node[t]] == t
  }

  lemma OwnedMore(node: map<TaskId, ListHead>, owner: map<ListHead, TaskId>, t: TaskId, entry: ListHead)
    requires Owned(node, owner) && t !in node && entry !in node.Values
    ensures Owned(node[t := entry], owner[entry := t])
    ensures node[t := entry].Keys == node.Keys + {t} && node[t := entry].Values - node.Values <= {entry}
  {
  }

  /** Rings without a common task have no common node. */
  lemma NodesApart(r: seq<TaskId>, q: seq<TaskId>, node: map<TaskId, ListHead>, owner: map<ListHead, TaskId>)
    requires Owned(node, owner) && (forall t :: t in r || t in q ==> t in node) && forall t :: t in r ==> t !in q
    ensures forall i, j :: 0 <= i < |r| && 0 <= j < |q| ==> NodesOf(r, node)[i] != NodesOf(q, node)[j]
  {
    forall i, j | 0 <= i < |r| && 0 <= j < |q|
      ensures NodesOf(r, node)[i] != NodesOf(q, node)[j]
    {
      assert r[i] in r && r[i] != q[j];
      assert owner[node[r[i]]] == r[i];
    }
  }

  ghost predicate Listed(tasks: seq<seq<TaskId>>, t: TaskId) {
    exists k :: 0 <= k < |tasks| && t in tasks[k]
  }

  // ---------- one list of several ----------

  ghost predicate AllCarry(lists: seq<Queue>, tasks: seq<seq<TaskId>>, node: map<TaskId, ListHead>)
    reads lists, set k, i | 0 <= k < |lists| && 0 <= i < |lists[k].items| :: lists[k].items[i]
  {
    && |lists| == |tasks|
    && forall k :: 0 <= k < |lists| ==> Carries(lists[k], tasks[k], node)
  }

  /** The lists are separate objects that run through the nodes of their tasks. */
  ghost predicate Wired(lists: seq<Queue>, tasks: seq<seq<TaskId>>, node: map<TaskId, ListHead>)
    reads lists, node.Values
  {
    && |lists| == |tasks|
    && (lists != [] ==>
          && lists[0] !in lists[1..]
          && (forall i :: 0 <= i < |lists[0].items| ==> lists[0].items[i] in node.Values)
          && Carries(lists[0], tasks[0], node)
          && Wired(lists[1..], tasks[1..], node))
  }

  lemma {:induction false} WiredCarry(lists: seq<Queue>, tasks: seq<seq<TaskId>>, node: map<TaskId, ListHead>)
    requires Wired(lists, tasks, node)
    ensures AllCarry(lists, tasks, node)
    ensures forall k, l :: 0 <= k < l < |lists| ==> lists[k] != lists[l]
    ensures forall k, i :: 0 <= k < |lists| && 0 <= i < |lists[k].items| ==> lists[k].items[i] in node.Values
  {
    if lists != [] {
      WiredCarry(lists[1..], tasks[1..], node);
    }
  }

  lemma {:induction false} CarryWired(lists: seq<Queue>, tasks: seq<seq<TaskId>>, node: map<TaskId, ListHead>)
    requires AllCarry(lists, tasks, node)
    requires forall k, l :: 0 <= k < l < |lists| ==> lists[k] != lists[l]
    ensures Wired(lists, tasks, node)
  {
    if lists != [] {
      forall k | 0 <= k < |lists| - 1
        ensures Carries(lists[1..][k], tasks[1..][k], node)
      {
        assert Carries(lists[k + 1], tasks[k + 1], node);
      }
      CarryWired(lists[1..], tasks[1..], node);
      assert Carries(lists[0], tasks[0], node);
      assert forall i :: 0 <= i < |tasks[0]| ==> tasks[0][i] in node;
    }
  }

  /** List k shares nothing with another list. */
  ghost predicate Alone(lists: seq<Queue>, k: nat)
    requires k < |lists|
    reads lists
  {
    && (forall l :: 0 <= l < |lists| && l != k ==> lists[l] != lists[k])
    && forall l, i, j :: 0 <= l < |lists| && l != k && 0 <= i < |lists[l].items| && 0 <= j < |lists[k].items| ==>
         lists[l].items[i] != lists[k].items[j]
  }

  /** Only the nodes of the tasks listed matter. */
  lemma AllCarryStill(lists: seq<Queue>, tasks: seq<seq<TaskId>>, node: map<TaskId, ListHead>,
                      node': map<TaskId, ListHead>)
    requires AllCarry(lists, tasks, node)
    requires forall t :: Listed(tasks, t) && t in node ==> t in node' && node'[t] == node[t]
    ensures AllCarry(lists, tasks, node')
  {
    forall k | 0 <= k < |lists|
      ensures Carries(lists[k], tasks[k], node')
    {
      assert Carries(lists[k], tasks[k], node);
      assert forall t :: t in tasks[k] ==> Listed(tasks, t);
      assert NodesOf(tasks[k], node') == NodesOf(tasks[k], node);
    }
  }

  method JoinOne(list: Queue, t: TaskId, node: map<TaskId, ListHead>, ghost ring: seq<TaskId>)
    requires Carries(list, ring, node) && t in node
    requires forall i :: 0 <= i < |list.items| ==> list.items[i] != node[t]
    modifies list, list.items, node[t]
    ensures Carries(list, ring + [t], node)
  {
    assert NodesOf(ring + [t], node) == NodesOf(ring, node) + [node[t]];
    list.Append(node[t]);
  }

  method JoinAt(lists: seq<Queue>, k: nat, t: TaskId, node: map<TaskId, ListHead>, ghost tasks: seq<seq<TaskId>>)
    requires AllCarry(lists, tasks, node) && k < |lists| && t in node && Alone(lists, k)
    requires forall l, i :: 0 <= l < |lists| && 0 <= i < |lists[l].items| ==> lists[l].items[i] != node[t]
    modifies lists[k], lists[k].items, node[t]
    ensures AllCarry(lists, tasks[k := tasks[k] + [t]], node)
  {
    JoinOne(lists[k], t, node, tasks[k]);
  }

  method TakeHeadOfOne(list: Queue, node: map<TaskId, ListHead>, ghost ring: seq<TaskId>) returns (entry: ListHead)
    requires Carries(list, ring, node) && ring != []
    modifies list, list.items
    ensures Carries(list, ring[1..], node) && entry == node[ring[0]]
  {
    assert NodesOf(ring[1..], node) == NodesOf(ring, node)[1..];
    entry := list.TakeHead();
  }

  method TakeHeadAt(lists: seq<Queue>, k: nat, node: map<TaskId, ListHead>, ghost tasks: seq<seq<TaskId>>)
    returns (entry: ListHead)
    requires AllCarry(lists, tasks, node) && k < |lists| && Alone(lists, k) && tasks[k] != []
    modifies lists[k], lists[k].items
    ensures AllCarry(lists, tasks[k := tasks[k][1..]], node) && entry == node[tasks[k][0]]
  {
    entry := TakeHeadOfOne(lists[k], node, tasks[k]);
  }

  method TurnOne(list: Queue, node: map<TaskId, ListHead>, ghost ring: seq<TaskId>)
    requires Carries(list, ring, node) && ring != []
    modifies list
    ensures Carries(list, ring[1..] + [ring[0]], node)
  {
    assert NodesOf(ring[1..] + [ring[0]], node) == Rotated(NodesOf(ring, node), 1);
    list.Turn();
  }

  method TurnAt(lists: seq<Queue>, k: nat, node: map<TaskId, ListHead>, ghost tasks: seq<seq<TaskId>>)
    requires AllCarry(lists, tasks, node) && k < |lists| && Alone(lists, k) && tasks[k] != []
    modifies lists[k]
    ensures AllCarry(lists, tasks[k := tasks[k][1..] + [tasks[k][0]]], node)
  {
    TurnOne(lists[k], node, tasks[k]);
  }

  method ClearAt(lists: seq<Queue>, k: nat, node: map<TaskId, ListHead>, ghost tasks: seq<seq<TaskId>>)
    requires AllCarry(lists, tasks, node) && k < |lists| && Alone(lists, k)
    modifies lists[k]
    ensures AllCarry(lists, tasks[k := []], node)
  {
    lists[k].Clear();
  }

  method EmptyLists(n: nat) returns (lists: seq<Queue>)
    ensures |lists| == n && AllCarry(lists, seq(n, _ => []), map[])
    ensures forall k :: 0 <= k < n ==> fresh(lists[k]) && lists[k].items == []
    ensures forall k, l :: 0 <= k < l < n ==> lists[k] != lists[l]
  {
    lists := [];
    for k := 0 to n
      invariant |lists| == k && AllCarry(lists, seq(k, _ => []), map[])
      invariant forall l :: 0 <= l < k ==> fresh(lists[l]) && lists[l].items == []
      invariant forall j, l :: 0 <= j < l < k ==> lists[j] != lists[l]
    {
      var list := new Queue();
      lists := lists + [list];
    }
  }

  // ---------- the four lists ----------

  const READY_LIST: nat := 0
  const PAUSED_LIST: nat := 1
  const SLEEPING_LIST: nat := 2
  const TERMINATED_LIST: nat := 3

  /** No task is on two lists. */
  ghost predicate Apart(tasks: seq<seq<TaskId>>) {
    forall k, l, t :: 0 <= k < l < |tasks| && t in tasks[k] ==> t !in tasks[l]
  }

  /** Lists stay apart when one of them changes within its own tasks and tasks on no list. */
  lemma ApartStill(tasks: seq<seq<TaskId>>, k: nat, ring: seq<TaskId>)
    requires Apart(tasks) && k < |tasks|
    requires forall t :: t in ring && t !in tasks[k] ==> !Listed(tasks, t)
    ensures Apart(tasks[k := ring])
  {
  }

  class TaskRings {
    const lists: seq<Queue>
    /** The list node inside each task's record. */
    var node: map<TaskId, ListHead>
    /** container_of: the task a node belongs to. */
    var owner: map<ListHead, TaskId>
    /** The tasks on each list, from its head. */
    ghost var tasks: seq<seq<TaskId>>

    /** Four separate well-formed rings, of nodes that belong to the tasks listed. */
    ghost predicate Valid()
      reads this, lists, node.Values
    {
      && |lists| == |tasks| == 4
      && Owned(node, owner) && Apart(tasks) && Wired(lists, tasks, node)
    }

    lemma ListAlone(k: nat)
      requires Valid() && k < 4
      ensures Alone(lists, k)
    {
      WiredCarry(lists, tasks, node);
      forall l | 0 <= l < 4 && l != k
        ensures forall i, j :: 0 <= i < |lists[l].items| && 0 <= j < |lists[k].items| ==>
                  lists[l].items[i] != lists[k].items[j]
      {
        NodesApart(tasks[l], tasks[k], node, owner);
      }
    }

    /** Every list names a task once, and no two lists the same task. */
    lemma TasksOnce(k: nat)
      requires Valid() && k < 4
      ensures Distinct(tasks[k]) && forall t :: t in tasks[k] ==> t in node
      ensures forall l :: 0 <= l < 4 && l != k ==> forall t :: t in tasks[k] ==> t !in tasks[l]
    {
      WiredCarry(lists, tasks, node);
      assert Carries(lists[k], tasks[k], node);
      forall i, j | 0 <= i < j < |tasks[k]|
        ensures tasks[k][i] != tasks[k][j]
      {
        assert NodesOf(tasks[k], node)[i] != NodesOf(tasks[k], node)[j];
      }
    }

    /** Four well-formed rings with no common node, each through the nodes of its tasks in order. */
    lemma SeparateRings(k: nat)
      requires Valid() && k < 4
      ensures lists[k].Valid() && |lists[k].items| == |tasks[k]|
      ensures forall i :: 0 <= i < |tasks[k]| ==> tasks[k][i] in node && lists[k].items[i] == node[tasks[k][i]]
      ensures forall l, i, j :: 0 <= l < 4 && l != k && 0 <= i < |lists[l].items| && 0 <= j < |lists[k].items| ==>
                lists[l].items[i] != lists[k].items[j]
    {
      WiredCarry(lists, tasks, node);
      ListAlone(k);
      assert Carries(lists[k], tasks[k], node);
    }

    lemma HeadOnce(k: nat)
      requires Valid() && k < 4 && tasks[k] != []
      ensures tasks[k][0] in node && !Listed(tasks[k := tasks[k][1..]], tasks[k][0])
    {
      TasksOnce(k);
      assert tasks[k][0] in tasks[k];
      assert tasks[k][0] !in tasks[k][1..];
    }

    constructor ()
      ensures Valid() && (forall k :: 0 <= k < 4 ==> fresh(lists[k]))
      ensures node == map[] && tasks == [[], [], [], []]
    {
      var rings := EmptyLists(4);
      lists := rings;
      node, owner := map[], map[];
      tasks := [[], [], [], []];
      new;
      assert tasks == seq(4, _ => []);
      CarryWired(lists, tasks, node);
    }

    predicate Empty(k: nat)
      requires Valid() && k < 4
      reads this, lists, node.Values
      ensures Empty(k) <==> tasks[k] == []
    {
      WiredCarry(lists, tasks, node);
      assert Carries(lists[k], tasks[k], node);
      lists[k].head == null
    }

    /** The task at the head of a list. */
    function Head(k: nat): (t: TaskId)
      requires Valid() && k < 4 && tasks[k] != []
      reads this, lists, node.Values
      ensures t == tasks[k][0]
    {
      WiredCarry(lists, tasks, node);
      assert Carries(lists[k], tasks[k], node);
      owner[lists[k].head]
    }

    /** A new task gets its node. */
    method NewTask(t: TaskId)
      requires Valid() && t !in node
      modifies this
      ensures Valid() && tasks == old(tasks) && node.Keys == old(node).Keys + {t}
      ensures fresh(node.Values - old(node).Values)
    {
      var entry := new ListHead();
      ghost var before := node;
      WiredCarry(lists, tasks, node);
      OwnedMore(node, owner, t, entry);
      node, owner := node[t := entry], owner[entry := t];
      AllCarryStill(lists, tasks, before, node);
      CarryWired(lists, tasks, node);
    }

    /** The record of a task on no list goes away, and its node with it. */
    method FreeTask(t: TaskId)
      requires Valid() && t in node && !Listed(tasks, t)
      modifies this
      ensures Valid() && tasks == old(tasks) && node == old(node) - {t}
    {
      ghost var before := node;
      WiredCarry(lists, tasks, node);
      node := node - {t};
      AllCarryStill(lists, tasks, before, node);
      CarryWired(lists, tasks, node);
    }

    /** Start a list or join its tail. */
    method Join(k: nat, t: TaskId)
      requires Valid() && k < 4 && t in node && !Listed(tasks, t)
      modifies this, lists[k], node.Values
      ensures Valid() && tasks == old(tasks)[k := old(tasks)[k] + [t]] && node == old(node)
    {
      WiredCarry(lists, tasks, node);
      forall l | 0 <= l < 4
        ensures forall i :: 0 <= i < |lists[l].items| ==> lists[l].items[i] != node[t]
      {
        NodesApart(tasks[l], [t], node, owner);
      }
      ListAlone(k);
      ApartStill(tasks, k, tasks[k] + [t]);
      JoinAt(lists, k, t, node, tasks);
      tasks := tasks[k := tasks[k] + [t]];
      CarryWired(lists, tasks, node);
    }

    /** Take the head off a list. */
    method TakeHead(k: nat) returns (t: TaskId)
      requires Valid() && k < 4 && tasks[k] != []
      modifies this, lists[k], node.Values
      ensures Valid() && t == old(tasks)[k][0] && tasks == old(tasks)[k := old(tasks)[k][1..]] && node == old(node)
      ensures t in node && !Listed(tasks, t)
    {
      WiredCarry(lists, tasks, node);
      ListAlone(k);
      HeadOnce(k);
      ApartStill(tasks, k, tasks[k][1..]);
      var entry := TakeHeadAt(lists, k, node, tasks);
      t := owner[entry];
      tasks := tasks[k := tasks[k][1..]];
      CarryWired(lists, tasks, node);
    }

    /** Move the head of a list on by one. */
    method Turn(k: nat)
      requires Valid() && k < 4 && tasks[k] != []
      modifies this, lists[k]
      ensures Valid() && tasks == old(tasks)[k := old(tasks)[k][1..] + [old(tasks)[k][0]]] && node == old(node)
    {
      WiredCarry(lists, tasks, node);
      ListAlone(k);
      ApartStill(tasks, k, tasks[k][1..] + [tasks[k][0]]);
      TurnAt(lists, k, node, tasks);
      tasks := tasks[k := tasks[k][1..] + [tasks[k][0]]];
      CarryWired(lists, tasks, node);
    }

    /** Let go of a whole list. */
    method Clear(k: nat)
      requires Valid() && k < 4
      modifies this, lists[k]
      ensures Valid() && tasks == old(tasks)[k := []] && node == old(node)
    {
      WiredCarry(lists, tasks, node);
      ListAlone(k);
      ApartStill(tasks, k, []);
      ClearAt(lists, k, node, tasks);
      tasks := tasks[k := []];
      CarryWired(lists, tasks, node);
    }
  }
}
