/**
 kern/mem/mem.c: the bump allocator, and the stacks that task_new of kern/task/task.c gets
 from it.
 */
module KernelHeap {
  import opened Wrappers
  import opened ContextSwitch

  const HEAP_SIZE := 16384
  const SIZEOF_TASK := 40

  /** A block handed out. */
  datatype Block = Block(start: nat, size: nat)

  predicate Disjoint(a: Block, b: Block) {
    a.start + a.size <= b.start || b.start + b.size <= a.start
  }

  /** `(16 - size) % 16` in unsigned 64-bit arithmetic, where the difference may wrap. */
  function Padding(size: nat): nat
    requires size < WORD
  {
    (if size <= 16 then 16 - size else WORD + 16 - size) % 16
  }

  /** The wrap does no harm: 2^64 is a multiple of 16, so the padding completes the size to the
      next multiple of 16, and no further. */
  lemma PaddingRounds(size: nat)
    requires size < WORD
    ensures (size + Padding(size)) % 16 == 0 && Padding(size) < 16
  {
  }

  predicate IsSize(size: nat) { size < WORD }

  /** The room taken by blocks of these sizes. */
  function Total(sizes: seq<nat>): nat
    requires forall i :: 0 <= i < |sizes| ==> IsSize(sizes[i])
  {
    if sizes == [] then 0
    else
      var n := |sizes| - 1;
      assert IsSize(sizes[n]);
      Total(sizes[..n]) + sizes[n] + Padding(sizes[n])
  }

  function Sizes(blocks: seq<Block>): (r: seq<nat>)
    ensures |r| == |blocks|
  {
    seq(|blocks|, i requires 0 <= i < |blocks| => blocks[i].size)
  }

  lemma TotalMore(blocks: seq<Block>, b: Block)
    requires (forall i :: 0 <= i < |blocks| ==> IsSize(Sizes(blocks)[i])) && IsSize(b.size)
    ensures forall i :: 0 <= i < |blocks + [b]| ==> IsSize(Sizes(blocks + [b])[i])
    ensures Total(Sizes(blocks + [b])) == Total(Sizes(blocks)) + b.size + Padding(b.size)
  {
    assert Sizes(blocks + [b])[..|blocks|] == Sizes(blocks);
    forall i | 0 <= i < |blocks + [b]| ensures IsSize(Sizes(blocks + [b])[i]) {
      assert i < |blocks| ==> Sizes(blocks + [b])[i] == Sizes(blocks)[i];
    }
  }

  class Heap {
    const base: nat               // the address of bump_heap, aligned to 16 bytes
    const bytes: array<nat>
    var heapNext: nat
    ghost var blocks: seq<Block>

    /** Blocks are aligned, inside the heap, below the next one, and no two overlap. */
    ghost predicate Valid()
      reads this
    {
      && base % 16 == 0 && bytes.Length == HEAP_SIZE
      && (forall i :: 0 <= i < |blocks| ==> IsSize(Sizes(blocks)[i]))
      && heapNext == base + Total(Sizes(blocks)) && heapNext <= base + HEAP_SIZE && heapNext % 16 == 0
      && (forall i :: 0 <= i < |blocks| ==>
            blocks[i].start % 16 == 0 && base <= blocks[i].start && blocks[i].start + blocks[i].size <= heapNext)
      && (forall i, j :: 0 <= i < j < |blocks| ==> Disjoint(blocks[i], blocks[j]))
    }

    constructor (base: nat)
      requires base % 16 == 0
      ensures Valid() && heapNext == this.base == base && blocks == [] && fresh(bytes)
    {
      this.base, this.bytes, this.heapNext, this.blocks := base, new nat[HEAP_SIZE], base, [];
    }

    /** A zeroed block on a 16-byte boundary, apart from every other.  The source does not look
        whether the block fits: where it does not, memset leaves the heap, and here the
        result is None. */
    method Kzalloc(size: nat) returns (r: Option<nat>)
      requires Valid() && size < WORD
      modifies this`heapNext, this`blocks, bytes
      ensures Valid()
      ensures r.Some? <==> old(heapNext) + size <= base + 16384
      ensures r.Some? ==> r.value == old(heapNext) && blocks == old(blocks) + [Block(r.value, size)]
      ensures r.Some? ==> bytes.Length == 16384 && forall i :: 0 <= i < 16384 ==>
                bytes[i] == if r.value <= base + i < r.value + size then 0 else old(bytes[i])
      ensures r.Some? ==> heapNext == old(heapNext) + size + Padding(size)
      ensures r == None ==> heapNext == old(heapNext) && blocks == old(blocks) && bytes[..] == old(bytes[..])
    {
      hide Padding, Total, Sizes;
      var result := heapNext;
      PaddingRounds(size);
      if result + size > base + HEAP_SIZE {
        return None;
      }
      Fits(base, result, size);
      TotalMore(blocks, Block(result, size));
      heapNext := heapNext + (size + Padding(size));
      for i := 0 to size
        modifies bytes
        invariant forall k :: 0 <= k < HEAP_SIZE ==>
                    bytes[k] == if result <= base + k < result + i then 0 else old(bytes[k])
      {
        bytes[result - base + i] := 0;
      }
      blocks := blocks + [Block(result, size)];
      r := Some(result);
    }

    predicate IsZero(b: Block)
      reads bytes
    {
      forall i :: 0 <= i < bytes.Length && b.start <= base + i < b.start + b.size ==> bytes[i] == 0
    }

    /** task_new: a task structure and a stack, both zeroed, neither overlapping anything else;
        exactly when both fit. */
    method TaskNew() returns (r: Option<Task>)
      requires Valid()
      modifies this`heapNext, this`blocks, bytes
      ensures Valid()
      ensures r.Some? <==> old(heapNext) + 4144 <= base + 16384
      ensures r.Some? ==> heapNext == old(heapNext) + 4144
      ensures r.Some? ==> r.value.pcb == old(heapNext) && r.value.base == old(heapNext) + 48
                          && r.value.top == old(heapNext) + 4144
      ensures old(blocks) <= blocks
      ensures r.Some? ==> r.value.frames == [] && r.value.top == r.value.base + STACK_SIZE
                          && blocks == old(blocks) + TaskBlocks(r.value)
                          && forall b :: b in TaskBlocks(r.value) ==> IsZero(b)
    {
      TaskPadding();
      hide Padding, Total, Sizes;
      var t := Kzalloc(SIZEOF_TASK);
      if t == None {
        return None;
      }
      var stack := Kzalloc(STACK_SIZE);
      if stack == None {
        return None;
      }
      r := Some(Task(stack.value, stack.value + STACK_SIZE, t.value, []));
      assert IsZero(Block(t.value, SIZEOF_TASK)) && IsZero(Block(stack.value, STACK_SIZE));
    }
  }

  const TASK_ROOM := 48   // SIZEOF_TASK and its padding

  lemma TaskPadding()
    ensures SIZEOF_TASK + Padding(SIZEOF_TASK) == TASK_ROOM && Padding(STACK_SIZE) == 0
  {
  }

  lemma Fits(base: nat, next: nat, size: nat)
    requires base % 16 == 0 && next % 16 == 0 && base <= next && next + size <= base + HEAP_SIZE && size < WORD
    ensures next + size + Padding(size) <= base + HEAP_SIZE && (next + (size + Padding(size))) % 16 == 0
  {
    PaddingRounds(size);
  }

  /** The task structure, which starts with the pcb, and its stack. */
  function TaskBlocks(t: Task): seq<Block>
    requires t.base <= t.top
  {
    [Block(t.pcb, SIZEOF_TASK), Block(t.base, t.top - t.base)]
  }

  /** Tasks from one heap keep out of each other's stacks and pcbs: what the context switch
      asks of every task added. */
  lemma TasksApart(heap: Heap, t: Task, u: Task, i: nat, j: nat)
    requires heap.Valid() && t.base <= t.top && u.base <= u.top && i + 1 < j && j + 1 < |heap.blocks|
    requires heap.blocks[i..i + 2] == TaskBlocks(t) && heap.blocks[j..j + 2] == TaskBlocks(u)
    ensures ContextSwitch.Apart(t, u)
  {
    assert heap.blocks[i] == heap.blocks[i..i + 2][0] && heap.blocks[i + 1] == heap.blocks[i..i + 2][1];
    assert heap.blocks[j] == heap.blocks[j..j + 2][0] && heap.blocks[j + 1] == heap.blocks[j..j + 2][1];
    assert Disjoint(heap.blocks[i], heap.blocks[i + 1]) && Disjoint(heap.blocks[j], heap.blocks[j + 1]);
    assert Disjoint(heap.blocks[i], heap.blocks[j]) && Disjoint(heap.blocks[i + 1], heap.blocks[j + 1]);
    assert Disjoint(heap.blocks[i], heap.blocks[j + 1]) && Disjoint(heap.blocks[i + 1], heap.blocks[j]);
  }

  /** Whatever was allocated before, a block fits exactly when the total stays within the heap:
      the padding of the last block never makes the difference. */
  lemma FitsIff(heap: Heap, size: nat)
    requires heap.Valid() && IsSize(size)
    ensures heap.heapNext + size <= heap.base + HEAP_SIZE <==>
            Total(Sizes(heap.blocks)) + size + Padding(size) <= HEAP_SIZE
  {
    hide Total, Sizes, Padding;
    if heap.heapNext + size <= heap.base + HEAP_SIZE {
      Fits(heap.base, heap.heapNext, size);
    }
  }

  /** The sizes task_bootstrap and n calls of task_new ask for. */
  function TaskSizes(n: nat): seq<nat> {
    if n == 0 then [SIZEOF_TASK] else TaskSizes(n - 1) + [SIZEOF_TASK, STACK_SIZE]
  }

  lemma {:induction false} TaskTotal(n: nat)
    ensures forall i :: 0 <= i < |TaskSizes(n)| ==> IsSize(TaskSizes(n)[i])
    ensures Total(TaskSizes(n)) == 48 + 4144 * n
  {
    if n > 0 {
      TaskTotal(n - 1);
      var s := TaskSizes(n - 1);
      assert (s + [SIZEOF_TASK, STACK_SIZE])[..|s| + 1] == s + [SIZEOF_TASK];
      assert (s + [SIZEOF_TASK])[..|s|] == s;
    }
  }

  /** Nothing else allocated, the bootstrap task and n more fit exactly when n is at most 3. */
  lemma TasksFitIff(n: nat)
    ensures forall i :: 0 <= i < |TaskSizes(n)| ==> IsSize(TaskSizes(n)[i])
    ensures Total(TaskSizes(n)) <= HEAP_SIZE <==> n <= 3
  {
    TaskTotal(n);
  }

  /** task_bootstrap and n calls of task_new, on a heap with nothing else in it: all succeed
      exactly when n is at most 3. */
  method BootTasks(base: nat, n: nat) returns (heap: Heap, ok: bool)
    requires base % 16 == 0
    ensures fresh(heap) && heap.Valid()
    ensures ok <==> n <= 3
    ensures ok ==> Sizes(heap.blocks) == TaskSizes(n)
  {
    TaskPadding();
    hide Heap.Valid, Padding, Total, Sizes, TaskSizes;
    heap := new Heap(base);
    var kmain := heap.Kzalloc(SIZEOF_TASK);
    FirstSize(heap.blocks);
    for k := 0 to n
      invariant fresh(heap) && fresh(heap.bytes) && heap.Valid() && heap.base == base
      invariant heap.heapNext == base + TASK_ROOM + (TASK_ROOM + STACK_SIZE) * k
      invariant Sizes(heap.blocks) == TaskSizes(k) && k <= 3
    {
      ghost var before := heap.blocks;
      var t := heap.TaskNew();
      if t == None {
        return heap, false;
      }
      MoreSizes(before, t.value, k);
    }
    ok := true;
  }

  lemma FirstSize(blocks: seq<Block>)
    requires |blocks| == 1 && blocks[0].size == SIZEOF_TASK
    ensures Sizes(blocks) == TaskSizes(0)
  {
  }

  lemma MoreSizes(blocks: seq<Block>, t: Task, n: nat)
    requires t.top == t.base + STACK_SIZE && Sizes(blocks) == TaskSizes(n)
    ensures Sizes(blocks + TaskBlocks(t)) == TaskSizes(n + 1)
  {
  }
}
