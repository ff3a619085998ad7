/**
 * The terminal task manager's priority queue (main.c): a singly linked
 * list kept sorted by non-increasing priority, first-in first-out among
 * equal priorities. Nodes are heap objects; the queue keeps, as ghost
 * state, the sequence of its nodes in list order and the tasks they hold.
 */
module SortedList {

  /** Size of a title buffer, terminator included (TITLE_LEN). */
  const TitleLen: nat := 64

  datatype Task = Task(id: int, priority: int, title: string)

  /** What dequeue returns when the queue is empty: id -1, all else zero. */
  const Sentinel := Task(-1, 0, "")

  /** The stored title: at most TitleLen - 1 characters of the given one. */
  function Truncate(title: string): (r: string)
    ensures |r| <= TitleLen - 1 && |r| <= |title|
    ensures r == title[..|r|]
    ensures |title| <= TitleLen - 1 ==> r == title
    ensures |title| > TitleLen - 1 ==> |r| == TitleLen - 1
  {
    if |title| <= TitleLen - 1 then title else title[..TitleLen - 1]
  }

  /** Non-increasing priority. */
  ghost predicate SortedByPriority(s: seq<Task>) {
    forall i, j :: 0 <= i < j < |s| ==> s[i].priority >= s[j].priority
  }

  /**
   * Non-increasing priority, and among equal priorities increasing ids,
   * that is, earlier insertions first.
   */
  ghost predicate Ordered(s: seq<Task>) {
    forall i, j {:trigger Precedes(s[i], s[j])} :: 0 <= i < j < |s| ==> Precedes(s[i], s[j])
  }

  /** x is served before y: higher priority, or equal priority and an earlier id. */
  predicate Precedes(x: Task, y: Task) {
    x.priority > y.priority || (x.priority == y.priority && x.id < y.id)
  }

  ghost predicate IdsBelow(s: seq<Task>, c: int) {
    forall t :: t in s ==> t.id < c
  }

  /** s with x inserted at position k, every later element moving up one place. */
  function Ins<T>(s: seq<T>, k: nat, x: T): (r: seq<T>)
    requires k <= |s|
    ensures |r| == |s| + 1
    ensures forall i :: 0 <= i < |r| ==> r[i] == if i < k then s[i] else if i == k then x else s[i - 1]
  {
    s[..k] + [x] + s[k..]
  }

  /**
   * The list enqueue leaves behind: t goes in front of the first task whose
   * priority is strictly smaller, or at the end when there is none.
   */
  function InsertByPriority(s: seq<Task>, t: Task): (r: seq<Task>)
    ensures |r| == |s| + 1
  {
    if s == [] || s[0].priority < t.priority then [t] + s
    else [s[0]] + InsertByPriority(s[1..], t)
  }

  /** The position at which enqueue links in a task of priority p. */
  function InsertionIndex(s: seq<Task>, p: int): (k: nat)
    ensures k <= |s|
    ensures forall j :: 0 <= j < k ==> s[j].priority >= p
    ensures k < |s| ==> s[k].priority < p
  {
    if s == [] || s[0].priority < p then 0
    else 1 + InsertionIndex(s[1..], p)
  }

  /**
   * Enqueue inserts exactly one task and neither reorders nor alters the
   * others: the old list is split at the insertion index.
   */
  lemma {:induction false} InsertByPriorityShape(s: seq<Task>, t: Task)
    ensures InsertByPriority(s, t) == Ins(s, InsertionIndex(s, t.priority), t)
  {
    if s == [] || s[0].priority < t.priority {
      assert InsertByPriority(s, t) == Ins(s, 0, t);
    } else {
      InsertByPriorityShape(s[1..], t);
      var k := InsertionIndex(s[1..], t.priority);
      assert s[..k + 1] == [s[0]] + s[1..][..k];
      assert s[k + 1..] == s[1..][k..];
      calc {
        InsertByPriority(s, t);
        [s[0]] + Ins(s[1..], k, t);
        [s[0]] + (s[1..][..k] + [t] + s[1..][k..]);
        ([s[0]] + s[1..][..k]) + [t] + s[1..][k..];
        Ins(s, k + 1, t);
      }
    }
  }

  /**
   * The insertion index is characterised by the tasks before it having
   * priority >= p and the first after it (if any) having priority < p; in a
   * sorted list every later task has priority < p, so the new task lands
   * after all tasks of equal priority.
   */
  lemma InsertionIndexUnique(s: seq<Task>, p: int, k: nat)
    requires k <= |s|
    requires forall j :: 0 <= j < k ==> s[j].priority >= p
    requires k < |s| ==> s[k].priority < p
    ensures InsertionIndex(s, p) == k
  {
  }

  /** An ordered queue is sorted by non-increasing priority. */
  lemma OrderedIsSorted(s: seq<Task>)
    requires Ordered(s)
    ensures SortedByPriority(s)
  {
    forall i, j | 0 <= i < j < |s|
      ensures s[i].priority >= s[j].priority
    {
      assert Precedes(s[i], s[j]);
    }
  }

  /** Enqueue adds exactly the new task: the multiset of tasks gains t and nothing else. */
  lemma {:induction false} InsertByPriorityMultiset(s: seq<Task>, t: Task)
    ensures multiset(InsertByPriority(s, t)) == multiset(s) + multiset{t}
    decreases |s|
  {
    if s != [] && s[0].priority >= t.priority {
      InsertByPriorityMultiset(s[1..], t);
      assert s == [s[0]] + s[1..];
    }
  }

  /**
   * In a queue sorted by priority, every task from the insertion index on
   * has a strictly smaller priority: the new task goes after all its ties.
   */
  lemma InsertionIndexSorted(s: seq<Task>, p: int)
    requires SortedByPriority(s)
    ensures forall j :: InsertionIndex(s, p) <= j < |s| ==> s[j].priority < p
  {
  }

  /**
   * A task whose id is above every queued id keeps the queue ordered when
   * enqueued: sorted by priority and first-in first-out among ties.
   */
  lemma InsertByPriorityOrdered(s: seq<Task>, t: Task)
    requires Ordered(s) && IdsBelow(s, t.id)
    ensures Ordered(InsertByPriority(s, t))
  {
    var k := InsertionIndex(s, t.priority);
    InsertByPriorityShape(s, t);
    var r := Ins(s, k, t);
    forall a, b | 0 <= a < b < |r|
      ensures Precedes(r[a], r[b])
    {
      if b < k {
        assert r[a] == s[a] && r[b] == s[b];
      } else if b == k {
        assert r[a] == s[a] && s[a] in s;
      } else if a == k {
        assert r[b] == s[b - 1];
        if k < b - 1 {
          assert Precedes(s[k], s[b - 1]);
        }
      } else if a < k {
        assert r[a] == s[a] && r[b] == s[b - 1];
      } else {
        assert r[a] == s[a - 1] && r[b] == s[b - 1];
      }
    }
  }

  /** Enqueuing a task whose id is above every queued id keeps all ids below the next one. */
  lemma IdsBelowInsert(s: seq<Task>, t: Task)
    requires IdsBelow(s, t.id)
    ensures IdsBelow(InsertByPriority(s, t), t.id + 1)
  {
    InsertByPriorityMultiset(s, t);
    forall u | u in InsertByPriority(s, t)
      ensures u.id < t.id + 1
    {
      assert u in multiset(InsertByPriority(s, t));
    }
  }

  /** Inserting x into s adds x and keeps every element of s. */
  lemma InsMembers<T>(s: seq<T>, k: nat, x: T)
    requires k <= |s|
    ensures forall y :: y in Ins(s, k, x) <==> y in s || y == x
  {
    assert multiset(Ins(s, k, x)) == multiset(s) + multiset{x} by {
      assert s == s[..k] + s[k..];
    }
  }

  /** The head of an ordered queue has top priority and the smallest id among ties. */
  lemma HeadIsFirstAmongMax(s: seq<Task>)
    requires Ordered(s) && s != []
    ensures forall t :: t in s && t != s[0] ==> Precedes(s[0], t)
  {
  }

  class Node {
    var task: Task
    var next: Node?

    constructor (t: Task)
      ensures task == t && next == null
    {
      task := t;
      next := null;
    }
  }

  /** Each node links to the next one in ns, and the last one to null. */
  ghost predicate Linked(ns: seq<Node>)
    reads ns
  {
    forall i {:trigger ns[i].next} :: 0 <= i < |ns| ==> ns[i].next == if i + 1 < |ns| then ns[i + 1] else null
  }

  /** The nodes of ns hold the tasks of s, position by position. */
  ghost predicate Holds(ns: seq<Node>, s: seq<Task>)
    reads ns
  {
    |ns| == |s| && forall i :: 0 <= i < |ns| ==> ns[i].task == s[i]
  }

  /** The i-th node of ns; names the terms that Distinct is instantiated on. */
  ghost function NodeAt(ns: seq<Node>, i: nat): Node
    requires i < |ns|
  {
    ns[i]
  }

  /** No node occurs twice in ns. */
  ghost predicate Distinct(ns: seq<Node>) {
    forall i, j {:trigger NodeAt(ns, i), NodeAt(ns, j)} :: 0 <= i < j < |ns| ==> NodeAt(ns, i) != NodeAt(ns, j)
  }

  lemma DistinctInsert(ns: seq<Node>, k: nat, n: Node)
    requires Distinct(ns) && n !in ns && k <= |ns|
    ensures Distinct(Ins(ns, k, n))
  {
    var ns' := Ins(ns, k, n);
    forall i, j | 0 <= i < j < |ns'|
      ensures NodeAt(ns', i) != NodeAt(ns', j)
    {
      var i0 := if i < k then i else i - 1;
      var j0 := if j <= k then j else j - 1;
      if i != k && j != k {
        assert NodeAt(ns', i) == NodeAt(ns, i0) && NodeAt(ns', j) == NodeAt(ns, j0);
      } else if i == k {
        assert NodeAt(ns', j) == ns[j0];
      } else {
        assert NodeAt(ns', i) == ns[i0];
      }
    }
  }

  lemma DistinctTail(ns: seq<Node>)
    requires Distinct(ns) && ns != []
    ensures Distinct(ns[1..])
  {
    forall i, j | 0 <= i < j < |ns| - 1
      ensures NodeAt(ns[1..], i) != NodeAt(ns[1..], j)
    {
      assert NodeAt(ns, i + 1) != NodeAt(ns, j + 1);
    }
  }

  /**
   * Makes n the first node of the chain ns, the way enqueue links a node in
   * front of the old head.
   */
  method LinkFront(ghost ns: seq<Node>, ghost s: seq<Task>, first: Node?, n: Node)
    requires Linked(ns) && Holds(ns, s)
    requires first == (if ns == [] then null else ns[0]) && n !in ns
    modifies n
    ensures Linked(Ins(ns, 0, n)) && Holds(Ins(ns, 0, n), Ins(s, 0, n.task))
    ensures n.task == old(n.task)
  {
    n.next := first;
    ghost var ns', s' := Ins(ns, 0, n), Ins(s, 0, n.task);
    forall i | 0 <= i < |ns'|
      ensures ns'[i].next == (if i + 1 < |ns'| then ns'[i + 1] else null)
      ensures ns'[i].task == s'[i]
    {
      if i > 0 {
        assert ns'[i] == ns[i - 1] && s'[i] == s[i - 1];
        assert old(ns[i - 1].next) == if i < |ns| then ns[i] else null;
      }
    }
  }

  /**
   * Links n into the chain ns right after its node k, the way enqueue splices
   * a node between the node it stopped at and that node's successor.
   */
  method LinkAfter(ghost ns: seq<Node>, ghost s: seq<Task>, ghost k: nat, curr: Node, n: Node)
    requires Linked(ns) && Holds(ns, s) && Distinct(ns)
    requires k < |ns| && curr == ns[k] && n !in ns
    modifies curr, n
    ensures Linked(Ins(ns, k + 1, n)) && Holds(Ins(ns, k + 1, n), Ins(s, k + 1, n.task))
    ensures n.task == old(n.task)
  {
    n.next := curr.next;
    curr.next := n;
    ghost var ns', s' := Ins(ns, k + 1, n), Ins(s, k + 1, n.task);
    forall i | 0 <= i < |ns'|
      ensures ns'[i].next == (if i + 1 < |ns'| then ns'[i + 1] else null)
      ensures ns'[i].task == s'[i]
    {
      if i < k {
        assert ns'[i] == ns[i] && ns'[i + 1] == ns[i + 1] && s'[i] == s[i];
        assert NodeAt(ns, i) != NodeAt(ns, k) && ns[i] != n;
        assert old(ns[i].next) == ns[i + 1] && old(ns[i].task) == s[i];
      } else if i == k {
        assert ns'[i] == curr && ns'[i + 1] == n && s'[i] == s[i];
      } else if i == k + 1 {
        assert ns'[i] == n && s'[i] == n.task;
        assert i + 1 < |ns'| ==> ns'[i + 1] == ns[i];
      } else {
        assert ns'[i] == ns[i - 1] && s'[i] == s[i - 1];
        assert i + 1 < |ns'| ==> ns'[i + 1] == ns[i];
        assert NodeAt(ns, i - 1) != NodeAt(ns, k) && ns[i - 1] != n;
        assert old(ns[i - 1].next) == (if i < |ns| then ns[i] else null) && old(ns[i - 1].task) == s[i - 1];
      }
    }
  }

  /**
   * The walk of enqueue over the chain ns starting at head, whose priority
   * is not smaller than the new one: move on while the next node's priority
   * is not smaller. Returns the node the new one is linked after.
   */
  method FindPredecessor(ghost ns: seq<Node>, ghost s: seq<Task>, head: Node, priority: int) returns (curr: Node, ghost k: nat)
    requires Linked(ns) && Holds(ns, s)
    requires ns != [] && head == ns[0] && head.task.priority >= priority
    ensures k < |ns| && curr == ns[k]
    ensures InsertionIndex(s, priority) == k + 1
  {
    curr := head;
    k := 0;
    while curr.next != null && curr.next.task.priority >= priority
      invariant k < |ns| && curr == ns[k]
      invariant forall j :: 0 <= j <= k ==> s[j].priority >= priority
      decreases |ns| - k
    {
      curr := curr.next;
      k := k + 1;
    }
    InsertionIndexUnique(s, priority, k + 1);
  }

  /**
   * Links n into the chain ns headed by head at the place its priority
   * calls for: in front of the head when the chain is empty or the head has
   * a smaller priority, otherwise right after the node the walk stops at.
   * Returns the new first node and the position n now occupies.
   */
  method Link(ghost ns: seq<Node>, ghost s: seq<Task>, head: Node?, n: Node) returns (first: Node, ghost k: nat)
    requires Linked(ns) && Holds(ns, s) && Distinct(ns)
    requires head == (if ns == [] then null else ns[0]) && n !in ns
    modifies ns, n
    ensures k == InsertionIndex(s, n.task.priority) && n.task == old(n.task)
    ensures first == Ins(ns, k, n)[0]
    ensures Linked(Ins(ns, k, n)) && Holds(Ins(ns, k, n), Ins(s, k, n.task))
  {
    if head == null || head.task.priority < n.task.priority {
      InsertionIndexUnique(s, n.task.priority, 0);
      k := 0;
      LinkFront(ns, s, head, n);
      first := n;
    } else {
      var curr;
      curr, k := FindPredecessor(ns, s, head, n.task.priority);
      LinkAfter(ns, s, k, curr, n);
      k := k + 1;
      first := head;
    }
  }

  class PriorityQueue {
    var head: Node?
    var size: int
    var nextId: int
    /** The nodes in list order, starting at head. */
    ghost var nodes: seq<Node>
    /** The tasks held by the nodes, in list order. */
    ghost var Contents: seq<Task>

    ghost predicate Valid()
      reads this, nodes
    {
      && |Contents| == size
      && head == (if nodes == [] then null else nodes[0])
      && Holds(nodes, Contents)
      && Linked(nodes)
      && Distinct(nodes)
      && Ordered(Contents)
      && IdsBelow(Contents, nextId)
    }

    /** initQueue: no nodes, size 0, first id 1. */
    constructor ()
      ensures Valid()
      ensures head == null && size == 0 && nextId == 1 && Contents == []
    {
      head := null;
      size := 0;
      nextId := 1;
      nodes := [];
      Contents := [];
    }

    /** Records the relinked chain, its tasks and the counters in the queue's fields. */
    method Commit(first: Node?, ghost ns: seq<Node>, ghost s: seq<Task>, id: int, n: int)
      requires Linked(ns) && Holds(ns, s) && Distinct(ns) && Ordered(s) && IdsBelow(s, id)
      requires first == (if ns == [] then null else ns[0]) && n == |s|
      modifies this
      ensures Valid()
      ensures head == first && nodes == ns && Contents == s && nextId == id && size == n
    {
      head, nodes, Contents, nextId, size := first, ns, s, id, n;
    }

    /**
     * Links a new node holding the next id, the given priority and the
     * truncated title in front of the first node of strictly smaller
     * priority. outOfMemory stands for the allocation of the node failing,
     * in which case nothing changes.
     */
    method Enqueue(priority: int, title: string, outOfMemory: bool)
      requires Valid()
      modifies this, nodes
      ensures Valid()
      ensures outOfMemory ==> nextId == old(nextId) && size == old(size) && Contents == old(Contents) && nodes == old(nodes)
      ensures !outOfMemory ==>
        && nextId == old(nextId) + 1 && size == old(size) + 1
        && Contents == InsertByPriority(old(Contents), Task(old(nextId), priority, Truncate(title)))
      ensures forall n :: n in nodes ==> n in old(nodes) || fresh(n)
    {
      if outOfMemory {
        return;
      }
      ghost var ns0, s0 := nodes, Contents;
      var id, n := nextId, size;
      var newNode := new Node(Task(id, priority, Truncate(title)));
      ghost var t := newNode.task;
      var first;
      ghost var k: nat;
      first, k := Link(ns0, s0, head, newNode);
      ghost var ns, s := Ins(ns0, k, newNode), InsertByPriority(s0, t);
      assert s == Ins(s0, k, t) by {
        InsertByPriorityShape(s0, t);
      }
      assert Distinct(ns) by {
        DistinctInsert(ns0, k, newNode);
      }
      assert Ordered(s) && IdsBelow(s, id + 1) by {
        InsertByPriorityOrdered(s0, t);
        IdsBelowInsert(s0, t);
      }
      assert forall m :: m in ns ==> m in ns0 || m == newNode by {
        InsMembers(ns0, k, newNode);
      }
      Commit(first, ns, s, id + 1, n + 1);
    }

    /**
     * Unlinks and returns the head task; on an empty queue returns the
     * sentinel and changes nothing.
     */
    method Dequeue() returns (t: Task)
      requires Valid()
      modifies this
      ensures Valid() && nextId == old(nextId)
      ensures old(Contents) == [] ==> t == Sentinel && Contents == [] && size == old(size)
      ensures old(Contents) != [] ==>
        && t == old(Contents)[0]
        && Contents == old(Contents)[1..]
        && size == old(size) - 1
        && forall u :: u in old(Contents) && u != t ==> Precedes(t, u)
    {
      t := Sentinel;
      if head != null {
        DistinctTail(nodes);
        HeadIsFirstAmongMax(Contents);
        var temp := head;
        t := temp.task;
        head := temp.next;
        size := size - 1;
        ghost var oldNodes, oldContents := nodes, Contents;
        nodes := nodes[1..];
        Contents := Contents[1..];
        assert Ordered(Contents) by {
          forall i, j | 0 <= i < j < |Contents|
            ensures Precedes(Contents[i], Contents[j])
          {
            assert Contents[i] == oldContents[i + 1] && Contents[j] == oldContents[j + 1];
          }
        }
        assert IdsBelow(Contents, nextId) by {
          forall u | u in Contents ensures u.id < nextId { assert u in oldContents; }
        }
        forall i | 0 <= i < |nodes|
          ensures nodes[i].next == if i + 1 < |nodes| then nodes[i + 1] else null
          ensures nodes[i].task == Contents[i]
        {
          assert nodes[i] == oldNodes[i + 1];
        }
      }
    }
  }
}
