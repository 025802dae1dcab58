/** scheduler.c and process.c over linked task nodes, task structs and the interrupt frame. */
module Scheduler {
  import opened Options
  import opened Powers
  import opened Layout
  import S = Scheduling

  class TaskStruct {
    /** Physical root of the task's page table. */
    const root: nat
    /** Virtual address of the task's kernel stack area. */
    const kernelStack: nat
    var regs: S.Registers
    var rip: nat
    var cs: nat
    var rflags: nat
    var rsp: nat
    var ss: nat

    constructor (root: nat, kernelStack: nat, first: S.Context)
      ensures this.root == root && this.kernelStack == kernelStack && Ctx() == first
    {
      this.root, this.kernelStack := root, kernelStack;
      regs, rip, cs, rflags, rsp, ss := first.regs, first.rip, first.cs, first.rflags, first.rsp, first.ss;
    }

    ghost function Ctx(): S.Context
      reads this
    {
      S.Context(regs, rip, cs, rflags, rsp, ss)
    }
  }

  /** The part of interrupt_stack_frame_t that a switch exchanges. */
  class InterruptFrame {
    var regs: S.Registers
    var rip: nat
    var cs: nat
    var rflags: nat
    var rsp: nat
    var ss: nat

    constructor (first: S.Context)
      ensures Ctx() == first
    {
      regs, rip, cs, rflags, rsp, ss := first.regs, first.rip, first.cs, first.rflags, first.rsp, first.ss;
    }

    ghost function Ctx(): S.Context
      reads this
    {
      S.Context(regs, rip, cs, rflags, rsp, ss)
    }
  }

  /** Page-table register and the ring-0 stack pointer of the task-state segment. */
  class Processor {
    var cr3: nat
    var rsp0: nat

    constructor () {
      cr3, rsp0 := 0, 0;
    }
  }

  class TaskNode {
    const val: TaskStruct
    var next: TaskNode?

    constructor (val: TaskStruct)
      ensures this.val == val && next == null
    {
      this.val, next := val, null;
    }
  }

  ghost function NodeAfter(nodes: seq<TaskNode>, i: int): TaskNode?
    requires 0 <= i < |nodes|
  {
    if i + 1 < |nodes| then nodes[i + 1] else null
  }

  /** `nodes` is the list that starts at `head`, and no node is in it twice. */
  ghost predicate List(head: TaskNode?, nodes: seq<TaskNode>)
    reads nodes
  {
    && (if nodes == [] then head == null else head == nodes[0])
    && (forall i :: 0 <= i < |nodes| ==> nodes[i].next == NodeAfter(nodes, i))
    && (forall i, j :: 0 <= i < j < |nodes| ==> nodes[i] != nodes[j])
  }

  /** The nodes carry the tasks of `q`, in order. */
  ghost predicate Carries(nodes: seq<TaskNode>, q: seq<TaskStruct>)
  {
    |nodes| == |q| && forall i :: 0 <= i < |q| ==> nodes[i].val == q[i]
  }

  lemma CarriesRotate(nodes: seq<TaskNode>, q: seq<TaskStruct>)
    requires Carries(nodes, q) && |q| > 1
    ensures Carries(nodes[1..] + [nodes[0]], S.Rotate(q))
  {
  }

  lemma CarriesHead(nodes: seq<TaskNode>, q: seq<TaskStruct>)
    requires Carries(nodes, q)
    ensures |nodes| == |q| && (q != [] ==> nodes[0].val == q[0])
  {
  }

  lemma CarriesSnoc(nodes: seq<TaskNode>, q: seq<TaskStruct>, n: TaskNode)
    requires Carries(nodes, q)
    ensures Carries(nodes + [n], q + [n.val])
  {
  }

  lemma ListHead(head: TaskNode?, nodes: seq<TaskNode>)
    requires List(head, nodes)
    ensures head == null <==> nodes == []
    ensures head != null ==> head == nodes[0] && (head.next == null <==> |nodes| == 1)
    ensures |nodes| > 1 ==> head.next == nodes[1]
  {
    assert nodes != [] ==> nodes[0].next == NodeAfter(nodes, 0);
  }

  lemma ListNext(head: TaskNode?, nodes: seq<TaskNode>, k: nat)
    requires List(head, nodes) && k < |nodes|
    ensures nodes[k].next == if k + 1 < |nodes| then nodes[k + 1] else null
  {
    assert nodes[k].next == NodeAfter(nodes, k);
  }

  lemma ListTail(nodes: seq<TaskNode>)
    requires nodes != [] && List(nodes[0], nodes)
    ensures List(nodes[0].next, nodes[1..]) && nodes[0] !in nodes[1..]
  {
    var rest := nodes[1..];
    assert nodes[0].next == NodeAfter(nodes, 0);
    forall i | 0 <= i < |rest| ensures rest[i].next == NodeAfter(rest, i) {
      assert rest[i] == nodes[i + 1];
    }
  }

  /** The list after its last node has been linked to `n`. */
  lemma ListSnoc(nodes: seq<TaskNode>, n: TaskNode)
    requires nodes != [] && n !in nodes && n.next == null && nodes[|nodes| - 1].next == n
    requires forall i :: 0 <= i < |nodes| - 1 ==> nodes[i].next == NodeAfter(nodes, i)
    requires forall i, j :: 0 <= i < j < |nodes| ==> nodes[i] != nodes[j]
    ensures List(nodes[0], nodes + [n])
  {
    var all := nodes + [n];
    forall i | 0 <= i < |all| ensures all[i].next == NodeAfter(all, i) {
      if i < |nodes| - 1 {
        assert nodes[i].next == NodeAfter(nodes, i);
      }
    }
  }

  lemma ListLinks(head: TaskNode?, nodes: seq<TaskNode>)
    requires List(head, nodes)
    ensures forall i :: 0 <= i < |nodes| ==> nodes[i].next == NodeAfter(nodes, i)
    ensures forall i, j :: 0 <= i < j < |nodes| ==> nodes[i] != nodes[j]
  {
  }

  /** The task structs hold the contexts in `saved`. */
  ghost predicate Holds(saved: map<TaskStruct, S.Context>)
    reads saved.Keys
  {
    forall t :: t in saved ==> t.Ctx() == saved[t]
  }

  lemma HoldsEach(saved: map<TaskStruct, S.Context>, t: TaskStruct)
    requires Holds(saved) && t in saved
    ensures t.Ctx() == saved[t]
  {
  }

  lemma HoldsNew(s: S.State<TaskStruct>, t: TaskStruct)
    requires Holds(s.saved)
    ensures Holds(S.WithTask(s, t, t.Ctx()).saved)
  {
  }

  lemma HoldsWithout(saved: map<TaskStruct, S.Context>, t: TaskStruct)
    requires Holds(saved)
    ensures Holds(saved - {t})
  {
  }

  lemma HoldsWith(saved: map<TaskStruct, S.Context>, t: TaskStruct)
    requires Holds(saved - {t})
    ensures Holds(saved[t := t.Ctx()])
  {
    forall u | u in saved && u != t ensures u.Ctx() == saved[u] {
      assert u in saved - {t};
    }
  }

  /** The saved contexts after a switch away from `prev`. */
  ghost function Switched(saved: map<TaskStruct, S.Context>, prev: TaskStruct?, frame: S.Context)
    : map<TaskStruct, S.Context>
  {
    if prev == null then saved else saved[prev := frame]
  }

  function AsOption(t: TaskStruct?): Option<TaskStruct>
  {
    if t == null then None else Some(t)
  }

  /** Without another task to run, schedule changes nothing. */
  lemma Stays(s: S.State<TaskStruct>)
    requires S.Closed(s)
    ensures !S.CanSwitch(s) ==> S.Schedule(s) == s
    ensures |s.queue| <= 1 ==> S.Rotate(s.queue) == s.queue
  {
  }

  /** What adding a task changes. */
  lemma Queued(s: S.State<TaskStruct>, t: TaskStruct, c: S.Context)
    requires S.Closed(s) && s.queue != []
    ensures var r := S.WithTask(s, t, c);
            && S.Take(s, S.Add(t, c)) == r.(queue := s.queue + [t]) && S.Closed(r.(queue := s.queue + [t]))
            && r == s.(saved := r.saved)
  {
    S.TakeClosed(s, S.Add(t, c));
  }

  /** What schedule changes once it has decided to switch. */
  lemma SwitchParts(s: S.State<TaskStruct>, prev: TaskStruct?)
    requires S.Closed(s) && s.initialised && S.CanSwitch(s) && s.curr == AsOption(prev)
    ensures s.queue[0] in s.saved && (prev != null ==> prev in s.saved)
    ensures var r, next, saved := S.Schedule(s), s.queue[0], Switched(s.saved, prev, s.frame);
            && S.Closed(r) && r.queue == S.Rotate(s.queue) && r.curr == Some(next) && r.loaded == Some(next)
            && r.saved == saved && r.frame == saved[next]
            && r.jiffies == s.jiffies && r.initialised && !r.needResched
  {
    S.ScheduleClosed(s);
  }

  class RunQueue {
    var initialised: bool
    var curr: TaskStruct?
    var tasks: TaskNode?
    var needResched: bool
    var jiffies: nat
    const frame: InterruptFrame
    const cpu: Processor
    ghost var nodes: seq<TaskNode>
    /** The abstract state. */
    ghost var abs: S.State<TaskStruct>

    ghost predicate Valid()
      reads this, frame, cpu, abs.saved.Keys, nodes
    {
      && S.Closed(abs)
      && List(tasks, nodes) && Carries(nodes, abs.queue)
      && abs.initialised == initialised && abs.curr == AsOption(curr)
      && abs.needResched == needResched && abs.jiffies == jiffies
      && abs.frame == frame.Ctx() && Holds(abs.saved)
      && Loaded()
    }

    /** The processor uses the page table and the kernel stack of the loaded task. */
    ghost predicate Loaded()
      reads this, cpu
    {
      abs.loaded.Some? ==> cpu.cr3 == abs.loaded.value.root && cpu.rsp0 == abs.loaded.value.kernelStack + STACK_SIZE
    }

    constructor (frame: InterruptFrame, cpu: Processor)
      ensures Valid() && this.frame == frame && this.cpu == cpu
      ensures abs == S.State(false, None, [], false, 0, frame.Ctx(), map[], None)
    {
      initialised, curr, tasks, needResched, jiffies := false, null, null, false, 0;
      this.frame, this.cpu := frame, cpu;
      nodes, abs := [], S.State(false, None, [], false, 0, frame.Ctx(), map[], None);
    }

    /** move_end_of_list: find the tail and link the element behind it. */
    method MoveEndOfList(element: TaskNode)
      requires List(tasks, nodes) && tasks != null && element !in nodes
      modifies nodes, element, this`nodes
      ensures List(tasks, nodes) && nodes == old(nodes) + [element]
    {
      hide NodeAfter;
      ListHead(tasks, nodes);
      ListLinks(tasks, nodes);
      var head := tasks;
      if head.next == null {
        head.next := element;
      } else {
        var tmp := tasks;
        ghost var k := 0;
        while tmp != null
          invariant 0 <= k < |nodes| && tmp == nodes[k]
          decreases |nodes| - k
          modifies {}
        {
          ListNext(tasks, nodes, k);
          if tmp.next == null {
            break;
          }
          tmp, k := tmp.next, k + 1;
        }
        tmp.next := element;
      }
      element.next := null;
      ListSnoc(nodes, element);
      nodes := nodes + [element];
    }

    /** scheduler_init: BUG_ON stops it when a task is queued already. */
    method SchedulerInit(task: TaskStruct)
      requires Valid() && tasks == null
      modifies this
      ensures Valid() && abs == old(S.Take(abs, S.Init(task, task.Ctx())))
    {
      S.TakeClosed(abs, S.Init(task, task.Ctx()));
      ListHead(tasks, nodes);
      var head := new TaskNode(task);
      abs := S.Take(abs, S.Init(task, task.Ctx()));
      tasks := head;
      nodes := [head];
      initialised := true;
    }

    method SchedulerTick()
      requires Valid()
      modifies this`needResched, this`abs
      ensures Valid() && abs == old(S.SchedulerTick(abs))
    {
      abs := S.SchedulerTick(abs);
      if !initialised {
        return;
      }
      if curr == null || jiffies % 10 == 0 {
        needResched := true;
      }
    }

    method SchedulerAdd(task: TaskStruct)
      requires Valid() && tasks != null
      modifies this, nodes
      ensures Valid() && abs == old(S.Take(abs, S.Add(task, task.Ctx())))
    {
      hide List, Carries, Holds, TaskStruct.Ctx, InterruptFrame.Ctx, S.Closed, S.Take, S.WithTask;
      ListHead(tasks, nodes);
      CarriesHead(nodes, abs.queue);
      Queued(abs, task, task.Ctx());
      var node := new TaskNode(task);
      CarriesSnoc(nodes, abs.queue, node);
      MoveEndOfList(node);
      HoldsNew(abs, task);
      abs := S.WithTask(abs, task, task.Ctx()).(queue := abs.queue + [task]);
      assert List(tasks, nodes) && Carries(nodes, abs.queue);
    }

    method LaunchProcess(task: TaskStruct)
      modifies cpu
      ensures cpu.cr3 == task.root && cpu.rsp0 == task.kernelStack + STACK_SIZE
    {
      cpu.rsp0 := task.kernelStack + STACK_SIZE;
      cpu.cr3 := task.root;
    }

    /** process_context_swtich, the same task on both sides included. */
    method ContextSwitch(prev: TaskStruct?, next: TaskStruct)
      modifies frame, cpu, prev
      ensures prev != null ==> prev.Ctx() == old(frame.Ctx())
      ensures frame.Ctx() == if next == prev then old(frame.Ctx()) else old(next.Ctx())
      ensures cpu.cr3 == next.root && cpu.rsp0 == next.kernelStack + STACK_SIZE
    {
      if prev == null {
        frame.regs := next.regs;
        frame.ss := next.ss;
        frame.cs := next.cs;
        frame.rflags := next.rflags;
        frame.rsp := next.rsp;
        frame.rip := next.rip;
        LaunchProcess(next);
      } else {
        prev.rsp := frame.rsp;
        prev.rip := frame.rip;
        prev.ss := frame.ss;
        prev.cs := frame.cs;
        prev.regs := frame.regs;
        prev.rflags := frame.rflags;
        frame.rsp := next.rsp;
        frame.rip := next.rip;
        frame.regs := next.regs;
        frame.ss := next.ss;
        frame.cs := next.cs;
        frame.rflags := next.rflags;
        LaunchProcess(next);
      }
    }

    /** The switch seen from all task structs. */
    method Dispatch(prev: TaskStruct?, next: TaskStruct, ghost saved: map<TaskStruct, S.Context>)
      requires Holds(saved) && next in saved && (prev != null ==> prev in saved)
      modifies frame, cpu, prev
      ensures Holds(Switched(saved, prev, old(frame.Ctx())))
      ensures frame.Ctx() == Switched(saved, prev, old(frame.Ctx()))[next]
      ensures cpu.cr3 == next.root && cpu.rsp0 == next.kernelStack + STACK_SIZE
    {
      hide Holds, TaskStruct.Ctx, InterruptFrame.Ctx;
      HoldsEach(saved, next);
      if prev == null {
        ContextSwitch(prev, next);
      } else {
        HoldsWithout(saved, prev);
        ContextSwitch(prev, next);
        HoldsWith(saved, prev);
      }
    }

    /** The relinking in schedule. */
    method MoveHeadToEnd()
      requires List(tasks, nodes) && |nodes| > 1 && Carries(nodes, abs.queue)
      modifies this`tasks, this`nodes, nodes
      ensures List(tasks, nodes) && Carries(nodes, S.Rotate(abs.queue)) && nodes == old(nodes[1..] + [nodes[0]])
    {
      hide List, Carries, S.Rotate;
      ListHead(tasks, nodes);
      ListTail(nodes);
      CarriesHead(nodes, abs.queue);
      CarriesRotate(nodes, abs.queue);
      var head := tasks;
      tasks := head.next;
      nodes := nodes[1..];
      ListHead(tasks, nodes);
      MoveEndOfList(head);
    }

    /** schedule; a valid queue that asks for rescheduling meets BUG_ON(!initialised). */
    method Schedule()
      requires Valid() && initialised
      modifies this, nodes, frame, cpu, abs.saved.Keys
      ensures Valid() && abs == old(S.Schedule(abs))
    {
      hide List, Carries, Holds, S.Closed, S.Rotate, S.Schedule, InterruptFrame.Ctx, TaskStruct.Ctx;
      Stays(abs);
      var head := tasks;
      ListHead(tasks, nodes);
      CarriesHead(nodes, abs.queue);
      if head == null || (curr != null && head.next == null) {
        return;
      }
      SwitchToHead();
    }

    /** The second half of schedule: the head of the queue runs next. */
    method SwitchToHead()
      requires Valid() && initialised && S.CanSwitch(abs)
      modifies this, nodes, frame, cpu, abs.saved.Keys
      ensures Valid() && abs == old(S.Schedule(abs))
    {
      hide List, Carries, Holds, Switched, S.Closed, S.Rotate, S.Schedule, InterruptFrame.Ctx, TaskStruct.Ctx;
      Stays(abs);
      SwitchParts(abs, curr);
      ListHead(tasks, nodes);
      CarriesHead(nodes, abs.queue);
      var prev := curr;
      var next := tasks.val;
      if tasks.next != null {
        MoveHeadToEnd();
      }
      curr := next;
      needResched := false;
      Dispatch(prev, next, abs.saved);
      abs := S.Schedule(abs);
      assert List(tasks, nodes);
      assert Carries(nodes, abs.queue);
      assert Holds(abs.saved);
      assert abs.frame == frame.Ctx();
      assert Loaded();
    }

    /** Whatever runs between two interrupts leaves a context that the next interrupt pushes. */
    method UserStep(context: S.Context)
      requires Valid()
      modifies this`abs, frame
      ensures Valid() && abs == old(S.Take(abs, S.User(context)))
    {
      frame.regs, frame.rip, frame.cs := context.regs, context.rip, context.cs;
      frame.rflags, frame.rsp, frame.ss := context.rflags, context.rsp, context.ss;
      abs := abs.(frame := context);
    }

    /** The timer branch of interrupt_handler, with pit_timer_handle_irq. */
    method TimerInterrupt()
      requires Valid()
      modifies this, nodes, frame, cpu, abs.saved.Keys
      ensures Valid() && abs == old(S.Take(abs, S.Timer))
    {
      hide List, Carries, Holds, InterruptFrame.Ctx, TaskStruct.Ctx, S.Schedule;
      jiffies := (jiffies + 1) % WORD;
      abs := abs.(jiffies := (abs.jiffies + 1) % WORD);
      SchedulerTick();
      if needResched {
        Schedule();
      }
    }
  }
}
