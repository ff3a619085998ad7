/**
 * The ordering store of the task manager: a binary max-heap of tasks kept
 * in a fixed-size array, with a count of live entries and an id counter
 * (src/priority_queue.c). The three globals of the C program are the
 * fields of one TaskHeap object.
 */
module MaxHeap {

  /** Capacity of the heap array (MAX_TASKS). */
  const MaxTasks: nat := 100
  /** Size of a task's name buffer, terminator included (NAME_LENGTH). */
  const NameLength: nat := 100

  /** One scheduled unit of work; a larger priority is more urgent. */
  datatype Task = Task(id: int, name: string, priority: int)

  /** The part of a task that the command protocol writes out. */
  datatype TaskView = TaskView(name: string, priority: int)

  /** The name and priority of a task, as written out; the id is not. */
  function View(t: Task): TaskView
  {
    TaskView(t.name, t.priority)
  }

  /** Index of the parent of array position i in the implicit tree. */
  function Parent(i: nat): (p: nat)
    requires 0 < i
    ensures p < i
    ensures i == 2 * p + 1 || i == 2 * p + 2
  {
    (i - 1) / 2
  }

  /** The max-heap property: no live entry outranks its parent. */
  ghost predicate IsHeap(s: seq<Task>) {
    forall i {:trigger s[Parent(i)]} :: 0 < i < |s| ==> s[Parent(i)].priority >= s[i].priority
  }

  /**
   * The state during sift-up with the moving entry at k: the heap property
   * holds everywhere except between k and its parent, and k's parent
   * dominates k's children.
   */
  ghost predicate SiftUpInv(s: seq<Task>, k: nat) {
    && k < |s|
    && (forall i {:trigger s[Parent(i)]} :: 0 < i < |s| && i != k ==> s[Parent(i)].priority >= s[i].priority)
    && (0 < k && 2 * k + 1 < |s| ==> s[Parent(k)].priority >= s[2 * k + 1].priority)
    && (0 < k && 2 * k + 2 < |s| ==> s[Parent(k)].priority >= s[2 * k + 2].priority)
  }

  /**
   * The state during sift-down with the moving entry at k: the heap property
   * holds everywhere except between k and its children, and k's parent
   * dominates k's children.
   */
  ghost predicate SiftDownInv(s: seq<Task>, k: nat) {
    && k < |s|
    && (forall i {:trigger s[Parent(i)]} :: 0 < i < |s| && Parent(i) != k ==> s[Parent(i)].priority >= s[i].priority)
    && (0 < k && 2 * k + 1 < |s| ==> s[Parent(k)].priority >= s[2 * k + 1].priority)
    && (0 < k && 2 * k + 2 < |s| ==> s[Parent(k)].priority >= s[2 * k + 2].priority)
  }

  /** Every entry of a heap is dominated by each of its ancestors, so by the root. */
  lemma {:induction false} RootIsMax(s: seq<Task>, i: nat)
    requires IsHeap(s) && i < |s|
    ensures s[i].priority <= s[0].priority
    decreases i
  {
    if i > 0 {
      RootIsMax(s, Parent(i));
    }
  }

  lemma RootIsMaxOfAll(s: seq<Task>)
    requires IsHeap(s) && |s| > 0
    ensures forall t :: t in s ==> t.priority <= s[0].priority
  {
    forall t | t in s
      ensures t.priority <= s[0].priority
    {
      var i :| 0 <= i < |s| && s[i] == t;
      RootIsMax(s, i);
    }
  }

  /** One swap of sift-up moves the violation one level towards the root. */
  lemma SiftUpStep(s: seq<Task>, k: nat)
    requires SiftUpInv(s, k) && 0 < k
    requires s[k].priority > s[Parent(k)].priority
    ensures SiftUpInv(s[k := s[Parent(k)]][Parent(k) := s[k]], Parent(k))
  {
    var p := Parent(k);
    var s' := s[k := s[p]][p := s[k]];
    forall i | 0 < i < |s'| && i != p
      ensures s'[Parent(i)].priority >= s'[i].priority
    {
      if i == k {
      } else if Parent(i) == k {
        assert i == 2 * k + 1 || i == 2 * k + 2;
      } else if Parent(i) == p {
        assert s'[Parent(i)] == s[k] && s'[i] == s[i];
        assert s[p].priority >= s[i].priority;
      } else {
        assert s'[Parent(i)] == s[Parent(i)] && s'[i] == s[i];
      }
    }
    if 0 < p {
      var g := Parent(p);
      assert s[g].priority >= s[p].priority;
      assert s'[g] == s[g];
      forall c | c == 2 * p + 1 || c == 2 * p + 2
        ensures c < |s'| ==> s'[g].priority >= s'[c].priority
      {
        if c < |s'| {
          if c == k {
            assert s'[c] == s[p];
          } else {
            assert Parent(c) == p && s'[c] == s[c];
            assert s[p].priority >= s[c].priority;
          }
        }
      }
    }
  }

  /** Sift-up may stop once the moving entry does not outrank its parent. */
  lemma SiftUpDone(s: seq<Task>, k: nat)
    requires SiftUpInv(s, k)
    requires k == 0 || s[k].priority <= s[Parent(k)].priority
    ensures IsHeap(s)
  {
  }

  /** One swap of sift-down with the larger child moves the violation one level down. */
  lemma SiftDownStep(s: seq<Task>, k: nat, m: nat)
    requires SiftDownInv(s, k)
    requires m == 2 * k + 1 || m == 2 * k + 2
    requires m < |s| && s[m].priority > s[k].priority
    requires 2 * k + 1 < |s| ==> s[m].priority >= s[2 * k + 1].priority
    requires 2 * k + 2 < |s| ==> s[m].priority >= s[2 * k + 2].priority
    ensures SiftDownInv(s[k := s[m]][m := s[k]], m)
  {
    var s' := s[k := s[m]][m := s[k]];
    assert Parent(m) == k;
    SiftDownStepAway(s, k, m);
    forall c | c == 2 * m + 1 || c == 2 * m + 2
      ensures c < |s'| ==> s'[Parent(m)].priority >= s'[c].priority
    {
      if c < |s'| {
        assert Parent(c) == m && s'[c] == s[c];
        assert s[m].priority >= s[c].priority;
      }
    }
  }

  /** The part of a sift-down step away from the new position m. */
  lemma SiftDownStepAway(s: seq<Task>, k: nat, m: nat)
    requires SiftDownInv(s, k)
    requires m == 2 * k + 1 || m == 2 * k + 2
    requires m < |s| && s[m].priority > s[k].priority
    requires 2 * k + 1 < |s| ==> s[m].priority >= s[2 * k + 1].priority
    requires 2 * k + 2 < |s| ==> s[m].priority >= s[2 * k + 2].priority
    ensures var s' := s[k := s[m]][m := s[k]];
      forall i {:trigger s'[Parent(i)]} :: 0 < i < |s'| && Parent(i) != m ==> s'[Parent(i)].priority >= s'[i].priority
  {
    var s' := s[k := s[m]][m := s[k]];
    forall i | 0 < i < |s'| && Parent(i) != m
      ensures s'[Parent(i)].priority >= s'[i].priority
    {
      if i == k {
        assert s'[Parent(k)] == s[Parent(k)] && s'[k] == s[m];
      } else if i == m {
      } else if Parent(i) == k {
        assert i == 2 * k + 1 || i == 2 * k + 2;
        assert s'[k] == s[m] && s'[i] == s[i];
      } else {
        assert s'[Parent(i)] == s[Parent(i)] && s'[i] == s[i];
      }
    }
  }


  /** Sift-down may stop once neither child outranks the moving entry. */
  lemma SiftDownDone(s: seq<Task>, k: nat)
    requires SiftDownInv(s, k)
    requires 2 * k + 1 < |s| ==> s[2 * k + 1].priority <= s[k].priority
    requires 2 * k + 2 < |s| ==> s[2 * k + 2].priority <= s[k].priority
    ensures IsHeap(s)
  {
    forall i | 0 < i < |s|
      ensures s[Parent(i)].priority >= s[i].priority
    {
    }
  }

  /** Swapping two positions below n permutes the first n entries and keeps the rest. */
  lemma SwappedPrefix(before: seq<Task>, after: seq<Task>, n: nat, i: nat, j: nat)
    requires i < n && j < n && n <= |before|
    requires after == before[i := before[j]][j := before[i]]
    ensures after[..n] == before[..n][i := before[j]][j := before[i]]
    ensures multiset(after[..n]) == multiset(before[..n])
    ensures after[n..] == before[n..]
  {
  }

  /** All ids in s are below c. */
  ghost predicate IdsBelow(s: seq<Task>, c: int) {
    forall t :: t in s ==> t.id < c
  }

  lemma IdsBelowSubMultiset(a: seq<Task>, b: seq<Task>, c: int)
    requires multiset(a) <= multiset(b) && IdsBelow(b, c)
    ensures IdsBelow(a, c)
  {
    forall t | t in a
      ensures t.id < c
    {
      assert t in multiset(a);
    }
  }

  /** Appending to a heap leaves only the new last entry to sift up. */
  lemma AppendSiftUp(s: seq<Task>, t: Task)
    requires IsHeap(s)
    ensures SiftUpInv(s + [t], |s|)
  {
    var s' := s + [t];
    forall i | 0 < i < |s'| && i != |s|
      ensures s'[Parent(i)].priority >= s'[i].priority
    {
      assert s'[i] == s[i] && s'[Parent(i)] == s[Parent(i)];
    }
  }

  /**
   * Appending t and sifting it up (any permutation of the extended
   * sequence) adds exactly t, and keeps ids below a bound above t's id.
   */
  lemma SiftedInsertion(before: seq<Task>, t: Task, after: seq<Task>, c: int)
    requires multiset(after) == multiset(before + [t])
    requires IdsBelow(before, c) && t.id < c
    ensures multiset(after) == multiset(before) + multiset{t}
    ensures IdsBelow(after, c)
  {
    IdsBelowSubMultiset(after, before + [t], c);
  }

  /**
   * Removing the root by moving the last entry up and sifting it down (any
   * permutation of the moved sequence) drops exactly the old root.
   */
  lemma SiftedRemoval(before: seq<Task>, moved: seq<Task>, after: seq<Task>, c: int)
    requires IsHeap(before) && |before| > 1
    requires moved == before[..|before| - 1][0 := before[|before| - 1]]
    requires multiset(after) == multiset(moved) && IdsBelow(before, c)
    ensures multiset(after) == multiset(before) - multiset{before[0]}
    ensures IdsBelow(after, c)
  {
    MoveLastToRoot(before);
    IdsBelowSubMultiset(after, before, c);
  }

  /**
   * Moving the last entry of a heap onto the root leaves only the root to
   * sift down, and removes exactly the old root from the multiset.
   */
  lemma MoveLastToRoot(s: seq<Task>)
    requires IsHeap(s) && |s| > 1
    ensures SiftDownInv(s[..|s| - 1][0 := s[|s| - 1]], 0)
    ensures multiset(s[..|s| - 1][0 := s[|s| - 1]]) == multiset(s) - multiset{s[0]}
  {
    var n := |s| - 1;
    var after := s[..n][0 := s[n]];
    forall i | 0 < i < n && Parent(i) != 0
      ensures after[Parent(i)].priority >= after[i].priority
    {
      assert after[Parent(i)] == s[Parent(i)] && after[i] == s[i];
    }
    assert s == s[..n] + [s[n]];
  }

  class TaskHeap {
    /** The heap array; positions [0, heapSize) hold the live tasks. */
    var heap: array<Task>
    var heapSize: nat
    /** The id the next inserted task receives. */
    var taskIdCounter: int

    ghost predicate Valid()
      reads this, heap
    {
      && heap.Length == MaxTasks
      && heapSize <= MaxTasks
      && IsHeap(heap[..heapSize])
      && 1 <= taskIdCounter
      && IdsBelow(heap[..heapSize], taskIdCounter)
    }

    /** The live entries, in array (level) order. */
    ghost function Live(): seq<Task>
      reads this, heap
      requires heapSize <= heap.Length
    {
      heap[..heapSize]
    }

    /** The zero-initialised globals: an empty heap whose first id is 1. */
    constructor ()
      ensures Valid() && fresh(heap)
      ensures heapSize == 0 && taskIdCounter == 1
    {
      heap := new Task[MaxTasks](_ => Task(0, "", 0));
      heapSize := 0;
      taskIdCounter := 1;
    }

    method Swap(i: nat, j: nat)
      requires i < heap.Length && j < heap.Length
      modifies heap
      ensures heap[..] == old(heap[..])[i := old(heap[j])][j := old(heap[i])]
    {
      var temp := heap[i];
      heap[i] := heap[j];
      heap[j] := temp;
    }

    /**
     * Adds a task with the next id, unless the heap is full, in which case
     * nothing changes and no id is consumed.
     */
    method Insert(name: string, priority: int)
      requires Valid() && |name| < NameLength
      modifies this, heap
      ensures Valid() && heap == old(heap)
      ensures old(heapSize) >= MaxTasks ==>
        && heapSize == old(heapSize)
        && taskIdCounter == old(taskIdCounter)
        && heap[..] == old(heap[..])
      ensures old(heapSize) < MaxTasks ==>
        && heapSize == old(heapSize) + 1
        && taskIdCounter == old(taskIdCounter) + 1
        && multiset(Live()) == multiset(old(Live())) + multiset{Task(old(taskIdCounter), name, priority)}
    {
      if heapSize >= MaxTasks {
        return;
      }
      var newTask := Task(taskIdCounter, name, priority);
      ghost var before := Live();
      heap[heapSize] := newTask;
      assert heap[..heapSize + 1] == before + [newTask];
      AppendSiftUp(before, newTask);
      BubbleUp(heapSize);
      ghost var after := heap[..heapSize + 1];
      SiftedInsertion(before, newTask, after, taskIdCounter + 1);
      heapSize, taskIdCounter := heapSize + 1, taskIdCounter + 1;
    }

    /** Sift-up: moves the entry at index towards the root while it outranks its parent. */
    method BubbleUp(index: nat)
      requires index < heap.Length && SiftUpInv(heap[..index + 1], index)
      modifies heap
      ensures IsHeap(heap[..index + 1])
      ensures multiset(heap[..index + 1]) == multiset(old(heap[..index + 1]))
      ensures heap[index + 1..] == old(heap[index + 1..])
    {
      var i: nat := index;
      while i > 0
        invariant i <= index
        invariant SiftUpInv(heap[..index + 1], i)
        invariant multiset(heap[..index + 1]) == multiset(old(heap[..index + 1]))
        invariant heap[index + 1..] == old(heap[index + 1..])
      {
        var parentIndex := Parent(i);
        if heap[i].priority > heap[parentIndex].priority {
          ghost var prev := heap[..];
          SiftUpStep(prev[..index + 1], i);
          Swap(i, parentIndex);
          SwappedPrefix(prev, heap[..], index + 1, i, parentIndex);
          i := parentIndex;
        } else {
          SiftUpDone(heap[..index + 1], i);
          break;
        }
      }
      SiftUpDone(heap[..index + 1], i);
    }

    /**
     * Removes and returns the root: the last live entry replaces it and
     * sinks back into place.
     */
    method ExtractMax() returns (max: Task)
      requires Valid() && heapSize > 0
      modifies this, heap
      ensures Valid() && heap == old(heap)
      ensures max == old(heap[0])
      ensures forall t :: t in old(Live()) ==> t.priority <= max.priority
      ensures heapSize == old(heapSize) - 1 && taskIdCounter == old(taskIdCounter)
      ensures multiset(Live()) == multiset(old(Live())) - multiset{max}
    {
      ghost var before := Live();
      max := heap[0];
      assert forall t :: t in before ==> t.priority <= max.priority by {
        RootIsMaxOfAll(before);
      }
      RemoveRoot();
    }

    /**
     * The rest of extractMax: moves the last live entry to the root, shrinks
     * the heap by one and, unless it is now empty, sifts the new root down.
     */
    method RemoveRoot()
      requires Valid() && heapSize > 0
      modifies this, heap
      ensures Valid() && heap == old(heap)
      ensures heapSize == old(heapSize) - 1 && taskIdCounter == old(taskIdCounter)
      ensures multiset(Live()) == multiset(old(Live())) - multiset{old(heap[0])}
    {
      ghost var before := Live();
      heap[0] := heap[heapSize - 1];
      heapSize := heapSize - 1;
      if heapSize > 0 {
        ghost var moved := heap[..heapSize];
        assert moved == before[..heapSize][0 := before[heapSize]];
        assert SiftDownInv(moved, 0) by {
          MoveLastToRoot(before);
        }
        BubbleDown(0);
        SiftedRemoval(before, moved, heap[..heapSize], taskIdCounter);
      } else {
        assert before == [before[0]];
      }
    }

    /** Sift-down: moves the entry at index towards the leaves while a child outranks it. */
    method BubbleDown(index: nat)
      requires heapSize <= heap.Length && SiftDownInv(heap[..heapSize], index)
      modifies heap
      ensures IsHeap(heap[..heapSize])
      ensures multiset(heap[..heapSize]) == multiset(old(heap[..heapSize]))
      ensures heap[heapSize..] == old(heap[heapSize..])
    {
      var i: nat := index;
      while true
        invariant SiftDownInv(heap[..heapSize], i)
        invariant multiset(heap[..heapSize]) == multiset(old(heap[..heapSize]))
        invariant heap[heapSize..] == old(heap[heapSize..])
        decreases heapSize - i
      {
        var leftChild := 2 * i + 1;
        var rightChild := 2 * i + 2;
        var largest := i;
        if leftChild < heapSize && heap[leftChild].priority > heap[largest].priority {
          largest := leftChild;
        }
        if rightChild < heapSize && heap[rightChild].priority > heap[largest].priority {
          largest := rightChild;
        }
        if largest != i {
          ghost var prev := heap[..];
          SiftDownStep(prev[..heapSize], i, largest);
          Swap(i, largest);
          SwappedPrefix(prev, heap[..], heapSize, i, largest);
          i := largest;
        } else {
          SiftDownDone(heap[..heapSize], i);
          break;
        }
      }
    }

    /**
     * Returns the entry at the root. The C function does not look at the
     * count; on a non-empty heap the root outranks every live entry.
     */
    method Peek() returns (t: Task)
      requires Valid()
      ensures t == heap[0]
      ensures heapSize > 0 ==> t in Live() && forall u :: u in Live() ==> u.priority <= t.priority
    {
      if heapSize > 0 {
        RootIsMaxOfAll(heap[..heapSize]);
      }
      t := heap[0];
    }

    /** The entries the PRINT command writes out, in array (level) order. */
    method PrintHeap() returns (dump: seq<TaskView>)
      requires heapSize <= heap.Length
      ensures |dump| == heapSize
      ensures forall i :: 0 <= i < heapSize ==> dump[i] == View(heap[i])
    {
      dump := [];
      for i := 0 to heapSize
        invariant |dump| == i
        invariant forall j :: 0 <= j < i ==> dump[j] == View(heap[j])
      {
        dump := dump + [View(heap[i])];
      }
    }
  }
}
