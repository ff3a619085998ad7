# Verified model of the DSA_project priority queues

The repository holds two independent priority-queue engines written in C.
This project models both in Dafny and proves their ordering, content and
bookkeeping properties.

- **The ordering store and its command processor** (`src/priority_queue.c`),
  modelled in `heap.dfy` and `commands.dfy`.
  - The store is a binary max-heap of tasks kept in a fixed array of 100
    entries. It has a count of live entries and an id counter.
  - `TaskHeap` is a class whose fields are the three globals: an
    `array<Task>`, `heapSize` and `taskIdCounter`.
  - `insert` places the new task at the end of the array and sifts it up.
  - `extractMax` moves the last entry onto the root and sifts it down.
  - `peek` reads the root.
  - `printHeap` lists the live entries in array order.
  - The sift loops are `while` loops proved with a "heap except along the
    sift path" invariant.
  - `Execute` is one pass of the input loop of `main`: it maps a command
    (`INSERT`, `EXTRACT`, `PEEK`, `PRINT` or anything else) to a response.
    `Run` is the loop over all commands.
- **The terminal task manager's queue** (`main.c`), modelled in
  `sorted_list.dfy`.
  - It is a singly linked list of heap-allocated nodes, kept sorted by
    non-increasing priority and first-in first-out among equal priorities.
  - `PriorityQueue` is a class with the `head`, `size` and `next_id` fields
    of the C struct.
  - Two ghost sequences follow the list: the nodes in list order and the
    tasks they hold.
  - `Enqueue` walks the nodes and relinks `next` pointers as the C code does.
    The result is proved equal to `InsertByPriority`, a functional
    specification of the same insertion, whose ordering properties are
    proved separately.
  - `Dequeue` unlinks the head.

## Model

| member | source | states |
|---|---|---|
| MaxHeap.Parent | src/priority_queue.c:170 | the parent index `(i-1)/2` lies below `i`, and `i` is its left (`2p+1`) or right (`2p+2`) child |
| MaxHeap.RootIsMax | src/priority_queue.c:196 | in a heap every entry's priority is at most the root's (induction up the parent chain) |
| MaxHeap.RootIsMaxOfAll | src/priority_queue.c:196 | in a non-empty heap no live task outranks the root |
| MaxHeap.SiftUpStep | src/priority_queue.c:173-178 | swapping an entry with a smaller-priority parent moves the single violation one level up and keeps the rest a heap |
| MaxHeap.SiftUpDone | src/priority_queue.c:168-182 | sift-up may stop at index 0 or at the first parent that is not outranked: the array prefix is then a heap |
| MaxHeap.SiftDownStep | src/priority_queue.c:222-234 | swapping with the larger child, when it strictly outranks the entry, moves the violation one level down |
| MaxHeap.SiftDownDone | src/priority_queue.c:232-237 | when neither child outranks the entry, the whole live prefix is a heap |
| MaxHeap.AppendSiftUp | src/priority_queue.c:152-155 | appending to a heap leaves a heap except at the new last position |
| MaxHeap.MoveLastToRoot | src/priority_queue.c:199-200 | moving the last entry onto the root leaves a heap except at the root, and removes exactly the old root from the multiset |
| MaxHeap.SiftedInsertion | src/priority_queue.c:147-158 | after appending and sifting up, the live multiset is the old one plus the new task and all ids stay below the counter |
| MaxHeap.SiftedRemoval | src/priority_queue.c:199-205 | after moving the last entry up and sifting down, the live multiset is the old one minus the old root, and ids stay below the counter |
| MaxHeap.TaskHeap.constructor | src/priority_queue.c:47-49 | the globals start as an empty heap of capacity 100 whose first id is 1 |
| MaxHeap.TaskHeap.Swap | src/priority_queue.c:126-130 | the array after the swap is the old array with positions i and j exchanged and nothing else changed |
| MaxHeap.TaskHeap.Insert | src/priority_queue.c:140-159 | on a full heap nothing changes and no id is used; otherwise the size and the counter grow by one, the live multiset gains exactly the task with the old counter as id, and the heap property and id bound hold again |
| MaxHeap.TaskHeap.BubbleUp | src/priority_queue.c:166-184 | the prefix up to `index` becomes a heap, is a permutation of what it was, and the entries after it are untouched |
| MaxHeap.TaskHeap.ExtractMax | src/priority_queue.c:195-208 | returns the old root, which no live task outranks; the size drops by one and the live multiset loses exactly the returned task; the counter is unchanged |
| MaxHeap.TaskHeap.RemoveRoot | src/priority_queue.c:199-205 | moving the last entry to the root, shrinking, and sifting down when entries remain leaves a heap holding the old entries minus the old root |
| MaxHeap.TaskHeap.BubbleDown | src/priority_queue.c:215-240 | the live prefix becomes a heap and a permutation of what it was; entries past it are untouched |
| MaxHeap.TaskHeap.Peek | src/priority_queue.c:246-248 | returns `heap[0]` and changes nothing; on a non-empty heap that task is live and no live task outranks it |
| MaxHeap.TaskHeap.PrintHeap | src/priority_queue.c:255-262 | lists exactly the live entries `heap[0..heapSize)` in array order, as name and priority |
| Commands.Answered | src/priority_queue.c:78-116 | the number of response lines never exceeds the number of commands |
| Commands.Execute | src/priority_queue.c:81-115 | per command: INSERT always answers "Task added" (the heap changes only when not full); EXTRACT/PEEK on an empty heap answer "Heap is empty" and change nothing; EXTRACT returns the maximum and removes it; PEEK returns the maximum without change; PRINT returns the live entries in order; unknown verbs answer nothing and change nothing |
| Commands.Run | src/priority_queue.c:78-116 | over any command sequence the heap stays valid, the same array is kept, ids never decrease, and one line is written per recognised command; when every verb is recognised there is one line per command, and when none is, nothing is written and the heap, its size and the id counter are unchanged |
| SortedList.Truncate | main.c:189-190 | the stored title is a prefix of the given one: the whole title when it fits in 63 characters, and exactly its first 63 characters otherwise |
| SortedList.InsertByPriority | main.c:193-205 | enqueueing adds one task: the length grows by one |
| SortedList.InsertByPriorityMultiset | main.c:193-205 | the multiset of queued tasks gains exactly the new task and loses none (induction along the walk) |
| SortedList.InsertionIndex | main.c:198-201 | the insertion point is the first position whose priority is strictly smaller than the new one; every task before it has priority at least the new one |
| SortedList.InsertionIndexUnique | main.c:198-201 | any position with those two properties is the insertion point |
| SortedList.InsertByPriorityShape | main.c:193-205 | the list after enqueue is the old list split at the insertion point with the new task between, so no other task is reordered or altered |
| SortedList.OrderedIsSorted | main.c:193-205 | a queue ordered by priority-then-arrival is sorted by non-increasing priority |
| SortedList.InsertionIndexSorted | main.c:194-200 | in a sorted queue everything from the insertion point on has strictly smaller priority, so the new task follows all its equals |
| SortedList.InsertByPriorityOrdered | main.c:186-205 | enqueueing a task whose id is above all queued ids keeps the queue sorted by priority and first-in first-out among equal priorities |
| SortedList.IdsBelowInsert | main.c:187 | after enqueue every queued id is below the incremented `next_id` |
| SortedList.HeadIsFirstAmongMax | main.c:211-219 | the head of an ordered queue has maximal priority and the smallest id among equal priorities |
| SortedList.FindPredecessor | main.c:198-202 | the walk stops at the node just before the insertion point |
| SortedList.LinkFront | main.c:194-196 | linking a node in front of the head yields a chain whose nodes and tasks are the old ones with the new node first |
| SortedList.LinkAfter | main.c:203-204 | splicing a node after node k yields a chain whose nodes and tasks are the old ones with the new node at position k+1 |
| SortedList.Link | main.c:193-205 | the node is linked exactly at the insertion point, and the chain of `next` pointers holds the old tasks with the new one inserted there |
| SortedList.PriorityQueue.constructor | main.c:173-177 | the queue starts empty: no head, size 0, next id 1 |
| SortedList.PriorityQueue.Enqueue | main.c:181-207 | on allocation failure nothing changes; otherwise the new task gets the old `next_id`, `next_id` and `size` grow by one, and the contents become `InsertByPriority` of the old contents; the list stays linked, sorted and first-in first-out among ties |
| SortedList.PriorityQueue.Dequeue | main.c:211-221 | on an empty queue returns the id -1 sentinel and changes nothing; otherwise returns the head task, which has maximal priority and the earliest id among ties, and leaves the tail with size one less |

Throughout, `Valid()` ties the fields together.
- For the heap: the array has 100 entries, `0 <= heapSize <= 100`, the live
  prefix satisfies `heap[(i-1)/2].priority >= heap[i].priority`, and every
  live id is below `taskIdCounter`.
- For the list:
  - `size` equals the number of nodes.
  - `head` is the first node, and each node's `next` is the following node,
    the last one's being null.
  - No node occurs twice.
  - The tasks are ordered by priority, then by id.
  - Every id is below `next_id`.

## Left out

- Input and output are left out:
  - The `scanf` tokenisation and the `printf` JSON formatting, including the
    unescaped interpolation of names, are not modelled.
  - Commands are values of a `Command` datatype, and responses are values of
    a `Reply` datatype.
  - `setbuf` has no counterpart.
- Two behaviours of the command loop are modelled as the code has them:
  - An `INSERT` on a full heap answers "Task added" although `insert`
    dropped the task.
  - An unrecognised command is skipped silently.
- MaxHeap.TaskHeap.Insert: `strcpy` into the 100-byte name buffer is
  unbounded in C. The model requires names shorter than 100 characters
  instead of modelling the overflow. The 50-byte command buffer is not
  modelled either.
- Commands.Execute: an `INSERT` whose priority token is not an integer is
  not modelled; the `Command` type cannot express it, since an `Insert`
  always carries an integer. In C, `priority` is declared once, outside the
  loop (src/priority_queue.c:69), so a failed `%d` (line 83) keeps the
  priority of the previous `INSERT` (uninitialised before the first one);
  `insert` still runs and "Task added" is still printed (lines 86-89); and
  the token that failed to parse stays in the input, where line 78 reads it
  as the next verb, so `INSERT a EXTRACT` inserts and then extracts.
- MaxHeap.TaskHeap.ExtractMax: requires a non-empty heap, because `main`
  calls it only then; on an empty heap the C code would read `heap[-1]`.
- Commands.Run: states the number of response lines and the invariants it
  keeps, not the content of each line. `Commands.Execute` states the content
  for every command.
- All integers are unbounded, so the 32-bit `int` wrap-around of
  `taskIdCounter` and `next_id` is not modelled. It would take about 2^31
  inserts.
- SortedList.PriorityQueue.Enqueue: allocation is modelled as follows.
  - The failure of `malloc` is a boolean parameter, under which nothing
    changes.
  - `free` in `dequeue` has no counterpart: the unlinked node is simply no
    longer reachable.
- The unused `created_at` timestamp field is not modelled.
- Titles are character sequences without a terminator, so a title
  containing a NUL character, where `strncpy` stops early, is not modelled.
- The interactive 1..100 priority prompt, the rendering and menu code of
  `main.c`, `server.js` and `src/main.js` are not part of this model. They
  are terminal, HTTP and browser I/O around the two engines.
