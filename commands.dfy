/**
 * The command processor of src/priority_queue.c: each command read from
 * standard input is dispatched to the task heap and answered with at most
 * one JSON line, modelled here as a Reply value.
 */
module Commands {
  import opened MaxHeap

  datatype Option<T> = None | Some(value: T)

  /**
   * A command as the input loop reads it: the verb token and, for INSERT,
   * the name and priority tokens after it. Other stands for any verb token
   * that is none of INSERT, EXTRACT, PEEK and PRINT.
   */
  datatype Command =
    | Insert(name: string, priority: int)
    | Extract
    | Peek
    | Print
    | Other

  /** The JSON response lines, without their byte-level formatting. */
  datatype Reply =
    | Added(message: string)
    | Error(message: string)
    | Found(task: TaskView)
    | Dump(heap: seq<TaskView>)

  const AddedMessage := "Task added"
  const EmptyMessage := "Heap is empty"

  /** Names that fit the name buffer of the input loop and of a task. */
  ghost predicate NamesFit(cmds: seq<Command>) {
    forall i :: 0 <= i < |cmds| && cmds[i].Insert? ==> |cmds[i].name| < NameLength
  }

  /** Number of commands that produce a response line. */
  function Answered(cmds: seq<Command>): (n: nat)
    ensures n <= |cmds|
  {
    if cmds == [] then 0
    else Answered(cmds[..|cmds| - 1]) + (if cmds[|cmds| - 1].Other? then 0 else 1)
  }

  /** Unknown verbs are answered with nothing. */
  lemma {:induction false} AnsweredNone(cmds: seq<Command>)
    requires forall i :: 0 <= i < |cmds| ==> cmds[i].Other?
    ensures Answered(cmds) == 0
  {
    if cmds != [] {
      AnsweredNone(cmds[..|cmds| - 1]);
    }
  }

  /** Every known verb is answered with exactly one line. */
  lemma {:induction false} AnsweredAll(cmds: seq<Command>)
    requires forall i :: 0 <= i < |cmds| ==> !cmds[i].Other?
    ensures Answered(cmds) == |cmds|
  {
    if cmds != [] {
      AnsweredAll(cmds[..|cmds| - 1]);
    }
  }

  /** Running one more command adds a response line exactly when its verb is known. */
  lemma AnsweredStep(cmds: seq<Command>, k: nat)
    requires k < |cmds|
    ensures Answered(cmds[..k + 1]) == Answered(cmds[..k]) + (if cmds[k].Other? then 0 else 1)
  {
    assert cmds[..k + 1][..k] == cmds[..k];
  }

  /** One pass of the input loop: dispatch one command and say what is written out. */
  method Execute(h: TaskHeap, cmd: Command) returns (reply: Option<Reply>)
    requires h.Valid()
    requires cmd.Insert? ==> |cmd.name| < NameLength
    modifies h, h.heap
    ensures h.Valid() && h.heap == old(h.heap)
    ensures h.taskIdCounter >= old(h.taskIdCounter)
    ensures reply.None? <==> cmd.Other?
    ensures cmd.Insert? ==>
      && reply == Some(Added(AddedMessage))
      && (old(h.heapSize) >= MaxTasks ==>
            h.heapSize == old(h.heapSize) && h.taskIdCounter == old(h.taskIdCounter) && h.heap[..] == old(h.heap[..]))
      && (old(h.heapSize) < MaxTasks ==>
            && h.heapSize == old(h.heapSize) + 1
            && h.taskIdCounter == old(h.taskIdCounter) + 1
            && multiset(h.Live()) == multiset(old(h.Live())) + multiset{Task(old(h.taskIdCounter), cmd.name, cmd.priority)})
    ensures (cmd.Extract? || cmd.Peek?) && old(h.heapSize) == 0 ==>
      && reply == Some(Error(EmptyMessage))
      && h.heapSize == 0 && h.taskIdCounter == old(h.taskIdCounter) && h.heap[..] == old(h.heap[..])
    ensures cmd.Extract? && old(h.heapSize) > 0 ==>
      && reply == Some(Found(View(old(h.heap[0]))))
      && (forall t :: t in old(h.Live()) ==> t.priority <= old(h.heap[0]).priority)
      && h.heapSize == old(h.heapSize) - 1 && h.taskIdCounter == old(h.taskIdCounter)
      && multiset(h.Live()) == multiset(old(h.Live())) - multiset{old(h.heap[0])}
    ensures cmd.Peek? && old(h.heapSize) > 0 ==>
      && reply == Some(Found(View(h.heap[0])))
      && (forall t :: t in h.Live() ==> t.priority <= h.heap[0].priority)
    ensures cmd.Print? ==>
      && reply.Some? && reply.value.Dump?
      && |reply.value.heap| == h.heapSize
      && (forall i :: 0 <= i < h.heapSize ==> reply.value.heap[i] == View(h.heap[i]))
    ensures (cmd.Peek? || cmd.Print? || cmd.Other?) ==>
      h.heapSize == old(h.heapSize) && h.taskIdCounter == old(h.taskIdCounter) && h.heap[..] == old(h.heap[..])
  {
    match cmd
    case Insert(name, priority) =>
      h.Insert(name, priority);
      reply := Some(Added(AddedMessage));
    case Extract =>
      if h.heapSize == 0 {
        reply := Some(Error(EmptyMessage));
      } else {
        var t := h.ExtractMax();
        reply := Some(Found(View(t)));
      }
    case Peek =>
      if h.heapSize == 0 {
        reply := Some(Error(EmptyMessage));
      } else {
        var t := h.Peek();
        reply := Some(Found(View(t)));
      }
    case Print =>
      var dump := h.PrintHeap();
      reply := Some(Dump(dump));
    case Other =>
      reply := None;
  }

  /**
   * The input loop: runs every command in order until the input ends and
   * collects the lines written out.
   */
  method Run(h: TaskHeap, cmds: seq<Command>) returns (replies: seq<Reply>)
    requires h.Valid() && NamesFit(cmds)
    modifies h, h.heap
    ensures h.Valid() && h.heap == old(h.heap)
    ensures |replies| == Answered(cmds)
    ensures h.taskIdCounter >= old(h.taskIdCounter)
    ensures (forall i :: 0 <= i < |cmds| ==> !cmds[i].Other?) ==> |replies| == |cmds|
    ensures (forall i :: 0 <= i < |cmds| ==> cmds[i].Other?) ==>
      && replies == []
      && h.heapSize == old(h.heapSize) && h.taskIdCounter == old(h.taskIdCounter)
      && h.heap[..] == old(h.heap[..])
  {
    replies := [];
    var k := 0;
    while k < |cmds|
      invariant k <= |cmds|
      invariant h.Valid() && h.heap == old(h.heap)
      invariant |replies| == Answered(cmds[..k])
      invariant h.taskIdCounter >= old(h.taskIdCounter)
      invariant (forall i :: 0 <= i < k ==> cmds[i].Other?) ==>
        h.heapSize == old(h.heapSize) && h.taskIdCounter == old(h.taskIdCounter)
        && h.heap[..] == old(h.heap[..])
    {
      var reply := Execute(h, cmds[k]);
      AnsweredStep(cmds, k);
      if reply.Some? {
        replies := replies + [reply.value];
      }
      k := k + 1;
    }
    assert cmds[..k] == cmds;
    if forall i :: 0 <= i < |cmds| ==> !cmds[i].Other? {
      AnsweredAll(cmds);
    }
    if forall i :: 0 <= i < |cmds| ==> cmds[i].Other? {
      AnsweredNone(cmds);
    }
  }
}
