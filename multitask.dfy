/** The task list of the kernel: creating a task (its control block, its
    rounded image size and the initial stack frame the first switch to it
    pops), the circular list of tasks, and the timer tick that picks the
    next task round robin. */
module Multitask {
  import opened Common
  import opened MemoryLayout
  import Memory

  /** Bytes of the stack block each task gets. */
  const STACK_BYTES: nat := 4096
  /** The stack block as 32-bit words. */
  const STACK_WORDS: nat := 1024
  /** `pStackTop` sits 16 bytes below the end of the stack block. */
  const STACK_TOP_WORD: nat := (STACK_BYTES - 16) / 4
  /** Words of the initial frame `CreateTask` pushes. */
  const FRAME_WORDS: nat := 17
  /** Where a user task's image is mapped when it is switched to. */
  const USER_TASK_BASE: nat := 0x4000_0000

  /** `KERNEL_TASK` or `USER_TASK`. */
  datatype TaskType = KernelTask | UserTask

  /** The numeric value of a task type: the order of the `TaskType`
      enumerators, `KERNEL` first. */
  function TypeCode(t: TaskType): nat
  {
    if t.KernelTask? then 0 else 1
  }

  /** `task->bKernel = type == KERNEL_PAGE`: the task type compared with the
      page-flag constant, not with `KERNEL_TASK`. */
  function IsKernelAsCompared(t: TaskType): bool
  {
    TypeCode(t) == KERNEL_PAGE as int
  }

  /** The comparison `CreateTask` makes holds for neither task type, so no task
      is marked a kernel task and every task gets its image rounded and is
      mapped as a user task when it is switched to. */
  lemma NoTaskIsMarkedKernel(t: TaskType)
    ensures !IsKernelAsCompared(t)
  {
    FlagValues();
  }

  /** Selector for `ss`, `ds`, `fs`, `es` and `gs`: the ring 0 data segment for
      kernel tasks, the ring 3 one for user tasks. */
  function DataSelector(t: TaskType): (s: u32)
    ensures s % 4 == if t.KernelTask? then 0 else 3
  {
    if t.KernelTask? then 0x10 else 0x23
  }

  /** Selector for `cs`. */
  function CodeSelector(t: TaskType): (s: u32)
    ensures s % 4 == if t.KernelTask? then 0 else 3
  {
    if t.KernelTask? then 0x08 else 0x1B
  }

  /** The words `CreateTask` pushes, from the final `pStack` upwards: the
      segment registers, the flags, the general registers, and the frame an
      inter-privilege `iret` pops. */
  function InitialFrame(t: TaskType, entry: u32, eflags: u32, stackTop: u32): (f: seq<u32>)
    ensures |f| == FRAME_WORDS
  {
    SegmentWords(t, eflags, stackTop) + GeneralRegisterWords() + IretWords(t, entry, eflags, stackTop)
  }

  /** `gs`, `es`, `fs`, `ds`, the flags and `ebp`, lowest address first. */
  function SegmentWords(t: TaskType, eflags: u32, stackTop: u32): seq<u32>
  {
    [DataSelector(t), DataSelector(t), DataSelector(t), DataSelector(t), eflags, stackTop]
  }

  /** `edi` to `eax`, all cleared. */
  function GeneralRegisterWords(): seq<u32>
  {
    [0, 0, 0, 0, 0, 0]
  }

  /** `eip`, `cs`, `eflags`, `esp`, `ss`. */
  function IretWords(t: TaskType, entry: u32, eflags: u32, stackTop: u32): seq<u32>
  {
    [entry, CodeSelector(t), eflags, stackTop, DataSelector(t)]
  }

  /** What an `iret` to an outer privilege level takes off the stack, lowest
      address first (section 6.12.1 of the Intel SDM Vol. 3A). */
  datatype IretFrame = IretFrame(eip: u32, cs: u32, eflags: u32, esp: u32, ss: u32)

  /** The `iret` frame held by the five lowest words of `words`. */
  function PopIretFrame(words: seq<u32>): IretFrame
    requires |words| >= 5
  {
    IretFrame(words[0], words[1], words[2], words[3], words[4])
  }

  /** The frame is 17 words; its top five are an `iret` frame that enters the
      task at `entry` with the stack top as `esp`, at ring 0 for a kernel task
      and ring 3 for a user task; below them lie the four data segment
      selectors, the flags, `ebp` at the stack top and six cleared registers. */
  lemma InitialFrameLayout(t: TaskType, entry: u32, eflags: u32, stackTop: u32)
    ensures |InitialFrame(t, entry, eflags, stackTop)| == FRAME_WORDS
    ensures PopIretFrame(InitialFrame(t, entry, eflags, stackTop)[12..])
         == IretFrame(entry, CodeSelector(t), eflags, stackTop, DataSelector(t))
    ensures PopIretFrame(InitialFrame(t, entry, eflags, stackTop)[12..]).cs % 4
         == PopIretFrame(InitialFrame(t, entry, eflags, stackTop)[12..]).ss % 4
         == if t.KernelTask? then 0 else 3
    ensures forall i :: 0 <= i < 4 ==> InitialFrame(t, entry, eflags, stackTop)[i] == DataSelector(t)
    ensures forall i :: 6 <= i < 12 ==> InitialFrame(t, entry, eflags, stackTop)[i] == 0
    ensures InitialFrame(t, entry, eflags, stackTop)[4] == eflags
    ensures InitialFrame(t, entry, eflags, stackTop)[5] == stackTop
  {
  }

  /** A 4-argument `AllocatePage` call: map the page at `virtual` to the frame
      at `physical` with `flags`. */
  datatype PageRequest = PageRequest(physical: u32, virtual: u32, flags: bv32)

  /** The calls `MapNewUserTask` makes for an image of `size` bytes at
      `location`, in order. */
  function UserTaskMapping(size: u32, location: u32): (m: seq<PageRequest>)
    ensures |m| == size / PAGE_SIZE
  {
    seq(size / PAGE_SIZE, i requires 0 <= i < size / PAGE_SIZE =>
      PageRequest(Wrap32(location + i * PAGE_SIZE), Wrap32(USER_TASK_BASE + i * PAGE_SIZE), USER_PAGE))
  }

  /** For an image whose size is a whole number of pages, as `CreateTask`
      leaves it, the mapping covers the image exactly: one user page per
      4 KiB, the `i`-th one at `USER_TASK_BASE + i * PAGE_SIZE`, and no two
      calls map the same virtual page. */
  lemma UserTaskMappingCoversImage(size: u32, location: u32)
    requires size % PAGE_SIZE == 0
    ensures |UserTaskMapping(size, location)| * PAGE_SIZE == size
    ensures forall i, j :: 0 <= i < j < |UserTaskMapping(size, location)| ==>
      UserTaskMapping(size, location)[i].virtual != UserTaskMapping(size, location)[j].virtual
    ensures forall i :: 0 <= i < |UserTaskMapping(size, location)| ==>
      UserTaskMapping(size, location)[i].virtual % PAGE_SIZE == 0
  {
    var m := UserTaskMapping(size, location);
    forall i, j | 0 <= i < j < |m|
      ensures m[i].virtual != m[j].virtual
    {
      assert i * PAGE_SIZE < j * PAGE_SIZE < WORD_MODULUS;
    }
    forall i | 0 <= i < |m|
      ensures m[i].virtual % PAGE_SIZE == 0
    {
      WrapKeepsPageAlignment(USER_TASK_BASE + i * PAGE_SIZE);
    }
  }

  lemma WrapKeepsPageAlignment(x: nat)
    requires x % PAGE_SIZE == 0
    ensures Wrap32(x) % PAGE_SIZE == 0
  {
    assert WORD_MODULUS == PAGE_SIZE * 0x10_0000;
  }

  /** The rounding `CreateTask` applies to a task's image size: up to the
      next whole page, in 32-bit arithmetic. It agrees with the memory
      manager's `RoundToNextPageSize`. */
  method RoundImageSize(size: u32) returns (roundedSize: u32)
    ensures roundedSize == Memory.RoundToNextPageSize(size)
    ensures roundedSize % PAGE_SIZE == 0
    ensures size <= WORD_MODULUS - PAGE_SIZE ==> size <= roundedSize < size + PAGE_SIZE
  {
    roundedSize := size;
    var remainder := roundedSize % PAGE_SIZE;
    if remainder != 0 {
      roundedSize := Wrap32(roundedSize + PAGE_SIZE - remainder);
    }
  }

  /** A task control block. */
  class Task {
    var name: seq<char>
    /** `bKernel`. */
    var isKernel: bool
    /** The image size in bytes, a whole number of pages. */
    var size: u32
    /** The physical address of the image. */
    var location: u32
    /** The address of the stack block. */
    var stackBase: u32
    /** The stack block, word by word. */
    var stack: array<u32>
    /** `pStack`, as a word index into `stack`. */
    var sp: nat
    var next: Task?
    var prev: Task?

    ghost predicate Valid()
      reads this
    {
      stack.Length == STACK_WORDS && sp <= STACK_TOP_WORD
    }

    /** Every field but the next link: what linking a later task into the
        list leaves alone. */
    function Settled(): (seq<char>, bool, u32, u32, u32, array<u32>, nat, Task?)
      reads this
    {
      (name, isKernel, size, location, stackBase, stack, sp, prev)
    }

    /** `pStack` as an address. */
    function StackPointer(): u32
      reads this
    {
      Wrap32(stackBase + 4 * sp)
    }

    /** The control block `kmalloc` hands back, with the fields `CreateTask`
        fills in before it builds the stack: links cleared, `pStack` at the
        stack top of the stack block at `stackBase`. */
    constructor (name: seq<char>, isKernel: bool, size: u32, location: u32, stackBase: u32)
      ensures Valid() && fresh(stack)
      ensures this.name == name && this.isKernel == isKernel
      ensures this.size == size && this.location == location
      ensures this.stackBase == stackBase && sp == STACK_TOP_WORD
      ensures next == null && prev == null
    {
      this.name := name;
      this.isKernel := isKernel;
      this.size := size;
      this.location := location;
      this.stackBase := stackBase;
      stack := new u32[STACK_WORDS];
      sp := STACK_TOP_WORD;
      next := null;
      prev := null;
    }
  }

  /** The tasks are distinct, their next links form one cycle in this order
      (the last one's next is the first), and each prev link points at the
      task before (none for the first). */
  ghost predicate Linked(tasks: seq<Task>)
    reads tasks
  {
    && (forall i, j :: 0 <= i < j < |tasks| ==> tasks[i] != tasks[j])
    && (forall i :: 0 <= i < |tasks| - 1 ==> tasks[i].next == tasks[i + 1])
    && (forall i :: 0 < i < |tasks| ==> tasks[i].prev == tasks[i - 1])
    && (|tasks| > 0 ==> tasks[|tasks| - 1].next == tasks[0] && tasks[0].prev == null)
  }

  /** The position after `k` in a cycle of `n`: the first one after the last. */
  function NextIndex(k: nat, n: nat): (r: nat)
    requires k < n
    ensures r < n
    ensures r == (k + 1) % n
  {
    if k + 1 < n then k + 1 else 0
  }

  /** In a linked list, the next link of the task at `k` is the task at the
      next position of the cycle. */
  lemma LinkedNext(tasks: seq<Task>, k: nat)
    requires Linked(tasks) && k < |tasks|
    ensures tasks[k].next == tasks[NextIndex(k, |tasks|)]
  {
  }

  /** The position reached from `k` after `m` ticks that each move to the
      next position of a cycle of `n`. */
  function Advance(k: nat, m: nat, n: nat): (r: nat)
    requires k < n
    ensures r < n
  {
    if m == 0 then k else NextIndex(Advance(k, m - 1, n), n)
  }

  /** Up to `n` moves along a cycle of `n` from `k`: `k + m`, less `n` once
      the last position has been passed. */
  lemma {:induction false} AdvanceWraps(k: nat, m: nat, n: nat)
    requires k < n && m <= n
    ensures Advance(k, m, n) == if k + m < n then k + m else k + m - n
  {
    if m > 0 {
      AdvanceWraps(k, m - 1, n);
    }
  }

  /** The number of ticks from position `k` to position `j` of a cycle of `n`. */
  function StepsTo(k: nat, j: nat, n: nat): (m: nat)
    requires k < n && j < n
    ensures m < n
  {
    if j >= k then j - k else j + n - k
  }

  /** Round robin: the `n` ticks from any running task visit every one of
      the `n` tasks exactly once, and the next tick comes back to it. */
  lemma RoundRobinVisitsEveryTask(k: nat, n: nat)
    requires k < n
    ensures Advance(k, n, n) == k
    ensures forall m1, m2 :: 0 <= m1 < m2 < n ==> Advance(k, m1, n) != Advance(k, m2, n)
    ensures forall j :: 0 <= j < n ==> Advance(k, StepsTo(k, j, n), n) == j
  {
    AdvanceWraps(k, n, n);
    forall m1, m2 | 0 <= m1 < m2 < n
      ensures Advance(k, m1, n) != Advance(k, m2, n)
    {
      AdvanceWraps(k, m1, n);
      AdvanceWraps(k, m2, n);
    }
    forall j | 0 <= j < n
      ensures Advance(k, StepsTo(k, j, n), n) == j
    {
      AdvanceWraps(k, StepsTo(k, j, n), n);
    }
  }

  /** The scheduler's state: the list of tasks, the running task, and what the
      tick leaves for the interrupt return path. */
  class Scheduler {
    /** `pTaskListHead`: the task created last. */
    var head: Task?
    /** `pTaskListTail`: the task created first. */
    var tail: Task?
    /** `pCurrentTask`. */
    var current: Task?
    var nTasks: nat
    /** `bEnableMultitasking`. */
    var enabled: bool
    /** `bIRQShouldJump`. */
    var irqShouldJump: bool
    /** The task whose `pStack` cell `oldTaskStack` points at; `null` is 0. */
    var oldTaskStack: Task?
    /** The task whose `pStack` cell `newTaskStack` points at. */
    var newTaskStack: Task?
    /** The `AllocatePage` calls made so far to map user tasks. */
    var pageRequests: seq<PageRequest>
    /** The tasks in creation order. */
    ghost var tasks: seq<Task>

    /** The list is the tasks in creation order, the head the last of them,
        the tail the first, and the running task one of them. */
    ghost predicate Valid()
      reads this, tasks
    {
      && |tasks| == nTasks
      && Linked(tasks)
      && (nTasks == 0 ==> head == null && tail == null && current == null)
      && (nTasks > 0 ==> head == tasks[nTasks - 1] && tail == tasks[0])
      && (current == null || current in tasks)
    }

    /** The position of `current` in creation order. */
    ghost function CurrentIndex(): (k: nat)
      requires Valid() && current != null
      reads this, tasks
      ensures k < |tasks| && tasks[k] == current
    {
      var k :| 0 <= k < |tasks| && tasks[k] == current;
      k
    }

    constructor ()
      ensures Valid() && tasks == [] && pageRequests == []
      ensures !enabled && !irqShouldJump && oldTaskStack == null && newTaskStack == null
    {
      head, tail, current := null, null, null;
      nTasks := 0;
      enabled, irqShouldJump := false, false;
      oldTaskStack, newTaskStack := null, null;
      pageRequests := [];
      tasks := [];
    }

    method EnableScheduler()
      modifies this
      ensures enabled
      ensures head == old(head) && tail == old(tail) && current == old(current) && nTasks == old(nTasks)
      ensures irqShouldJump == old(irqShouldJump) && tasks == old(tasks) && pageRequests == old(pageRequests)
      ensures oldTaskStack == old(oldTaskStack) && newTaskStack == old(newTaskStack)
    {
      enabled := true;
    }

    method DisableScheduler()
      modifies this
      ensures !enabled
      ensures head == old(head) && tail == old(tail) && current == old(current) && nTasks == old(nTasks)
      ensures irqShouldJump == old(irqShouldJump) && tasks == old(tasks) && pageRequests == old(pageRequests)
      ensures oldTaskStack == old(oldTaskStack) && newTaskStack == old(newTaskStack)
    {
      enabled := false;
    }

    /** `CreateTask`: a control block and a stack from `kmalloc` (the stack
        block at `stackBase`), the image size rounded up to whole pages, the
        17-word initial frame pushed below the stack top, and the task linked
        in as the new head. The `pushf` value is `eflags`. */
    method CreateTask(name: seq<char>, entry: u32, size: u32, location: u32, t: TaskType,
                      stackBase: u32, eflags: u32) returns (task: Task)
      requires Valid()
      modifies this, head
      ensures Valid() && fresh(task) && fresh(task.stack) && task.Valid()
      ensures tasks == old(tasks) + [task] && nTasks == old(nTasks) + 1
      ensures head == task && tail == tasks[0] && task.next == tasks[0] && task.prev == old(head)
      ensures current == old(current) && enabled == old(enabled) && irqShouldJump == old(irqShouldJump)
      ensures oldTaskStack == old(oldTaskStack) && newTaskStack == old(newTaskStack)
      ensures pageRequests == old(pageRequests)
      ensures forall t :: t in old(tasks) ==> t.Settled() == old(t.Settled())
      ensures task.name == name[..if |name| < 32 then |name| else 32]
      ensures task.isKernel == IsKernelAsCompared(t)
      ensures !IsKernelAsCompared(t) ==>
        task.size == Memory.RoundToNextPageSize(size) && task.location == location
      ensures task.sp == STACK_TOP_WORD - FRAME_WORDS
      ensures task.StackPointer() == Wrap32(stackBase + STACK_BYTES - 16 - 4 * FRAME_WORDS)
      ensures task.stack[task.sp..STACK_TOP_WORD]
           == InitialFrame(t, entry, eflags, Wrap32(stackBase + STACK_BYTES - 16))
    {
      task := NewTask(name, entry, size, location, t, stackBase, eflags);
      LinkAsHead(task);
    }

    /** The part of `CreateTask` before the list is touched: the control
        block filled in and the initial frame pushed on its stack. */
    static method NewTask(name: seq<char>, entry: u32, size: u32, location: u32, t: TaskType,
                          stackBase: u32, eflags: u32) returns (task: Task)
      ensures fresh(task) && fresh(task.stack) && task.Valid() && task.next == null
      ensures task.name == name[..if |name| < 32 then |name| else 32]
      ensures task.isKernel == IsKernelAsCompared(t)
      ensures !IsKernelAsCompared(t) ==>
        task.size == Memory.RoundToNextPageSize(size) && task.location == location
      ensures task.sp == STACK_TOP_WORD - FRAME_WORDS
      ensures task.StackPointer() == Wrap32(stackBase + STACK_BYTES - 16 - 4 * FRAME_WORDS)
      ensures task.stack[task.sp..STACK_TOP_WORD]
           == InitialFrame(t, entry, eflags, Wrap32(stackBase + STACK_BYTES - 16))
    {
      var taskSize, taskLocation := 0, 0;
      if TypeCode(t) != KERNEL_PAGE as int {
        taskSize := RoundImageSize(size);
        taskLocation := location;
      }
      task := new Task(name[..if |name| < 32 then |name| else 32], IsKernelAsCompared(t),
                       taskSize, taskLocation, stackBase);

      var stackTop := Wrap32(stackBase + STACK_BYTES - 16);
      task.sp := PushFrame(task.stack, t, entry, eflags, stackTop);
      assert stackBase + 4 * task.sp == stackBase + STACK_BYTES - 16 - 4 * FRAME_WORDS;
    }

    /** The list part of `CreateTask`: the new task becomes the head, its prev
        the old head, the old head's next the new task (there is no old head
        to write through on the first creation), the tail is set on the first
        creation only, and the new task's cleared next link is set to the
        tail, which closes the cycle. */
    method LinkAsHead(task: Task)
      requires Valid() && task !in tasks && task.next == null
      modifies this, head, task
      ensures Valid() && tasks == old(tasks) + [task] && nTasks == old(nTasks) + 1
      ensures head == task && tail == tasks[0] && task.next == tasks[0] && task.prev == old(head)
      ensures current == old(current) && enabled == old(enabled) && irqShouldJump == old(irqShouldJump)
      ensures oldTaskStack == old(oldTaskStack) && newTaskStack == old(newTaskStack)
      ensures pageRequests == old(pageRequests)
      ensures forall t :: t in old(tasks) ==> t.Settled() == old(t.Settled())
      ensures task.name == old(task.name) && task.isKernel == old(task.isKernel)
      ensures task.size == old(task.size) && task.location == old(task.location)
      ensures task.stackBase == old(task.stackBase) && task.stack == old(task.stack) && task.sp == old(task.sp)
    {
      ghost var before := tasks;
      var oldHead := head;
      head := task;
      task.prev := oldHead;
      if oldHead != null {
        oldHead.next := task;
      }
      if tail == null {
        tail := task;
      }
      if task.next == null {
        task.next := tail;
      }
      nTasks := nTasks + 1;
      tasks := tasks + [task];
      forall i | 0 <= i < |before| - 1
        ensures tasks[i].next == tasks[i + 1]
      {
        assert tasks[i] != oldHead;
      }
    }

    /** The seventeen pushes of `CreateTask`, in order, from `pStack` at the
        stack top: the `iret` frame, the cleared general registers, then
        `ebp`, the flags and the segment registers. Returns the new `pStack`. */
    static method PushFrame(stack: array<u32>, t: TaskType, entry: u32, eflags: u32, stackTop: u32)
      returns (sp: nat)
      requires stack.Length == STACK_WORDS
      modifies stack
      ensures sp == STACK_TOP_WORD - FRAME_WORDS
      ensures stack[sp..STACK_TOP_WORD] == InitialFrame(t, entry, eflags, stackTop)
    {
      var sp1 := PushIretFrame(stack, STACK_TOP_WORD, t, entry, eflags, stackTop);
      var sp2 := PushGeneralRegisters(stack, sp1);
      sp := PushSavedRegisters(stack, sp2, t, eflags, stackTop);
      assert IretWords(t, entry, eflags, stackTop) + [] == IretWords(t, entry, eflags, stackTop);
    }

    /** `ss`, `esp`, `eflags`, `cs`, `eip`. */
    static method PushIretFrame(stack: array<u32>, sp: nat, t: TaskType, entry: u32, eflags: u32, stackTop: u32)
      returns (sp': nat)
      requires stack.Length == STACK_WORDS && 5 <= sp <= STACK_TOP_WORD
      modifies stack
      ensures sp' == sp - 5
      ensures stack[sp'..STACK_TOP_WORD] == IretWords(t, entry, eflags, stackTop) + old(stack[sp..STACK_TOP_WORD])
    {
      sp' := sp;
      sp' := sp' - 1; stack[sp'] := DataSelector(t);  // ss
      sp' := sp' - 1; stack[sp'] := stackTop;         // esp
      sp' := sp' - 1; stack[sp'] := eflags;
      sp' := sp' - 1; stack[sp'] := CodeSelector(t);  // cs
      sp' := sp' - 1; stack[sp'] := entry;            // eip
    }

    /** `eax` to `edi`, all cleared. */
    static method PushGeneralRegisters(stack: array<u32>, sp: nat) returns (sp': nat)
      requires stack.Length == STACK_WORDS && 6 <= sp <= STACK_TOP_WORD
      modifies stack
      ensures sp' == sp - 6
      ensures stack[sp'..STACK_TOP_WORD] == GeneralRegisterWords() + old(stack[sp..STACK_TOP_WORD])
    {
      sp' := sp;
      sp' := sp' - 1; stack[sp'] := 0;  // eax
      sp' := sp' - 1; stack[sp'] := 0;  // ebx
      sp' := sp' - 1; stack[sp'] := 0;  // ecx
      sp' := sp' - 1; stack[sp'] := 0;  // edx
      sp' := sp' - 1; stack[sp'] := 0;  // esi
      sp' := sp' - 1; stack[sp'] := 0;  // edi
    }

    /** `ebp` at the stack top, `eflags` again, then `ds`, `fs`, `es`, `gs`. */
    static method PushSavedRegisters(stack: array<u32>, sp: nat, t: TaskType, eflags: u32, stackTop: u32)
      returns (sp': nat)
      requires stack.Length == STACK_WORDS && 6 <= sp <= STACK_TOP_WORD
      modifies stack
      ensures sp' == sp - 6
      ensures stack[sp'..STACK_TOP_WORD] == SegmentWords(t, eflags, stackTop) + old(stack[sp..STACK_TOP_WORD])
    {
      sp' := sp;
      sp' := sp' - 1; stack[sp'] := stackTop;         // ebp
      sp' := sp' - 1; stack[sp'] := eflags;
      sp' := sp' - 1; stack[sp'] := DataSelector(t);  // ds
      sp' := sp' - 1; stack[sp'] := DataSelector(t);  // fs
      sp' := sp' - 1; stack[sp'] := DataSelector(t);  // es
      sp' := sp' - 1; stack[sp'] := DataSelector(t);  // gs
    }

    /** `MapNewUserTask`: maps the pages of the task's image from
        `USER_TASK_BASE` on. */
    method MapNewUserTask(task: Task)
      modifies this
      ensures pageRequests == old(pageRequests) + UserTaskMapping(task.size, task.location)
      ensures head == old(head) && tail == old(tail) && current == old(current) && nTasks == old(nTasks)
      ensures enabled == old(enabled) && irqShouldJump == old(irqShouldJump) && tasks == old(tasks)
      ensures oldTaskStack == old(oldTaskStack) && newTaskStack == old(newTaskStack)
    {
      for i := 0 to task.size / PAGE_SIZE
        invariant pageRequests == old(pageRequests) + UserTaskMapping(task.size, task.location)[..i]
        invariant head == old(head) && tail == old(tail) && current == old(current) && nTasks == old(nTasks)
        invariant enabled == old(enabled) && irqShouldJump == old(irqShouldJump) && tasks == old(tasks)
        invariant oldTaskStack == old(oldTaskStack) && newTaskStack == old(newTaskStack)
      {
        pageRequests := pageRequests + [PageRequest(Wrap32(task.location + i * PAGE_SIZE),
                                                    Wrap32(USER_TASK_BASE + i * PAGE_SIZE), USER_PAGE)];
      }
    }

    /** The requests a switch to `task` makes: none for a kernel task. */
    ghost function SwitchMapping(task: Task): seq<PageRequest>
      reads task
    {
      if task.isKernel then [] else UserTaskMapping(task.size, task.location)
    }

    /** `OnMultitaskPIT`: on each timer tick, with tasks and the scheduler
        enabled, switches to the next task in creation order (the first task
        when none has run) and tells the interrupt return path to jump. */
    method OnMultitaskPIT()
      requires Valid()
      modifies this
      ensures Valid()
      ensures head == old(head) && tail == old(tail) && nTasks == old(nTasks) && tasks == old(tasks)
      ensures enabled == old(enabled)
      // No task or scheduling off: only the jump flag is cleared.
      ensures old(nTasks) == 0 || !old(enabled) ==>
        !irqShouldJump && current == old(current) && pageRequests == old(pageRequests)
        && oldTaskStack == old(oldTaskStack) && newTaskStack == old(newTaskStack)
      // The only task already runs: nothing changes, the jump flag included.
      ensures old(nTasks) == 1 && old(enabled) && old(current) != null ==>
        irqShouldJump == old(irqShouldJump) && current == old(current) && pageRequests == old(pageRequests)
        && oldTaskStack == old(oldTaskStack) && newTaskStack == old(newTaskStack)
      // Nothing has run yet: the first task created starts.
      ensures old(nTasks) > 0 && old(enabled) && old(current) == null ==>
        current == tasks[0] && irqShouldJump && oldTaskStack == null && newTaskStack == current
        && pageRequests == old(pageRequests) + SwitchMapping(current)
      // Several tasks: the one created after the current one runs next.
      ensures old(nTasks) > 1 && old(enabled) && old(current) != null ==>
        current == tasks[NextIndex(old(CurrentIndex()), nTasks)] && irqShouldJump
        && oldTaskStack == old(current) && newTaskStack == current
        && pageRequests == old(pageRequests) + SwitchMapping(current)
    {
      if nTasks == 0 || !enabled {
        irqShouldJump := false;
        return;
      }
      if nTasks == 1 && current == null {
        SwitchTo(null, head);
      } else if nTasks > 1 {
        if current == null {
          SwitchTo(null, tail);
        } else {
          LinkedNext(tasks, CurrentIndex());
          SwitchTo(current, current.next);
        }
      }
    }

    /** The part the three switching branches of `OnMultitaskPIT` share:
        make `newTask` current, point the two stack cells at the old and new
        task, map the new task's image unless it is a kernel task, and tell
        the interrupt return path to jump. */
    method SwitchTo(oldTask: Task?, newTask: Task)
      requires Valid() && newTask in tasks
      modifies this
      ensures Valid()
      ensures current == newTask && oldTaskStack == oldTask && newTaskStack == newTask && irqShouldJump
      ensures pageRequests == old(pageRequests) + SwitchMapping(newTask)
      ensures head == old(head) && tail == old(tail) && nTasks == old(nTasks) && tasks == old(tasks)
      ensures enabled == old(enabled)
    {
      current := newTask;
      oldTaskStack := oldTask;
      newTaskStack := newTask;
      if !newTask.isKernel {
        MapNewUserTask(newTask);
      }
      irqShouldJump := true;
    }
  }
}
