/** The round-robin scheduler and the context switch, as a machine over timer ticks. */
module Scheduling {
  import opened Options
  import opened Powers
  import opened Bits

  /** The 64-bit general purpose registers. */
  datatype Registers = Registers(
    r15: nat, r14: nat, r13: nat, r12: nat, r11: nat, r10: nat, r9: nat, r8: nat,
    rsi: nat, rdi: nat, rbp: nat, rdx: nat, rcx: nat, rbx: nat, rax: nat)

  /** What an interrupt frame and a suspended task both hold. */
  datatype Context = Context(regs: Registers, rip: nat, cs: nat, rflags: nat, rsp: nat, ss: nat)

  /**
   * `frame` is the context the processor returns to, `saved` the contexts in the task structs,
   * and `loaded` the task whose page table and kernel stack the processor uses.
   */
  datatype State<T(==)> = State(
    initialised: bool,
    curr: Option<T>,
    queue: seq<T>,
    needResched: bool,
    jiffies: nat,
    frame: Context,
    saved: map<T, Context>,
    loaded: Option<T>)

  /** Every task in sight has a saved context. */
  ghost predicate Closed<T>(s: State<T>)
  {
    && s.jiffies < WORD
    && (forall t :: t in s.queue ==> t in s.saved)
    && (s.curr.Some? ==> s.curr.value in s.saved)
    && (s.needResched || s.curr.Some? ==> s.initialised)
    && (s.initialised ==> s.queue != [])
  }

  // ---- scheduler.c and process.c ----

  function SchedulerTick<T>(s: State<T>): State<T>
  {
    if s.initialised && (s.curr.None? || s.jiffies % 10 == 0) then s.(needResched := true) else s
  }

  /** schedule gives up when there is nothing else to run. */
  predicate CanSwitch<T>(s: State<T>)
  {
    s.queue != [] && (s.curr.None? || |s.queue| > 1)
  }

  /** Move the head to the end of the list. */
  function Rotate<T>(q: seq<T>): seq<T>
  {
    if |q| > 1 then q[1..] + [q[0]] else q
  }

  /** process_context_swtich: save the interrupted context, then load the next one. */
  function ContextSwitch<T>(s: State<T>, curr: Option<T>, next: T): State<T>
    requires next in s.saved
  {
    var saved := if curr.None? then s.saved else s.saved[curr.value := s.frame];
    s.(saved := saved, frame := saved[next], loaded := Some(next))
  }

  function Schedule<T>(s: State<T>): State<T>
    requires s.queue != [] ==> s.queue[0] in s.saved
  {
    if !CanSwitch(s) then s
    else
      var next := s.queue[0];
      ContextSwitch(s.(queue := Rotate(s.queue), curr := Some(next), needResched := false), s.curr, next)
  }

  /** The timer interrupt: count, let the scheduler decide, switch before returning. */
  function Tick<T>(s: State<T>): State<T>
    requires s.queue != [] ==> s.queue[0] in s.saved
  {
    var s1 := SchedulerTick(s.(jiffies := (s.jiffies + 1) % WORD));
    if s1.needResched then Schedule(s1) else s1
  }

  // ---- steps and runs ----

  /** The steps: a running task changes its own context, the timer fires, tasks are queued with their first context. */
  datatype Step<T> = User(context: Context) | Timer | Init(task: T, first: Context) | Add(task: T, first: Context)

  /** A task struct keeps its own context when it is queued again. */
  function WithTask<T>(s: State<T>, t: T, c: Context): State<T>
  {
    if t in s.saved then s else s.(saved := s.saved[t := c])
  }

  /**
   * scheduler_init halts on a queue that is not empty and scheduler_add faults on an empty one;
   * such a step is taken to change nothing.
   */
  function Take<T>(s: State<T>, e: Step<T>): State<T>
    requires s.queue != [] ==> s.queue[0] in s.saved
  {
    match e
    case User(c) => s.(frame := c)
    case Timer => Tick(s)
    case Init(t, c) => if s.queue != [] then s else WithTask(s, t, c).(queue := [t], initialised := true)
    case Add(t, c) => if s.queue == [] then s else WithTask(s, t, c).(queue := s.queue + [t])
  }

  lemma TakeClosed<T>(s: State<T>, e: Step<T>)
    requires Closed(s)
    ensures Closed(Take(s, e))
    ensures s.saved.Keys <= Take(s, e).saved.Keys
    ensures |Take(s, e).queue| >= |s.queue| && (s.initialised ==> Take(s, e).initialised)
  {
  }

  lemma ScheduleClosed<T>(s: State<T>)
    requires Closed(s) && s.initialised
    ensures s.queue != [] ==> s.queue[0] in s.saved
    ensures Closed(Schedule(s)) && Schedule(s).saved.Keys == s.saved.Keys
  {
    if s.curr.Some? {
      assert s.saved[s.curr.value := s.frame].Keys == s.saved.Keys;
    }
    assert forall t :: t in Rotate(s.queue) ==> t in s.queue;
  }

  function Run<T>(s: State<T>, es: seq<Step<T>>): State<T>
    requires Closed(s)
    decreases |es|
  {
    if es == [] then s
    else
      TakeClosed(s, es[0]);
      Run(Take(s, es[0]), es[1..])
  }

  // ---- isolation ----

  /** The context of a task as the task itself would find it: live if it runs, saved otherwise. */
  function View<T>(s: State<T>, t: T): Context
    requires t in s.saved
  {
    if s.curr == Some(t) then s.frame else s.saved[t]
  }

  /** A timer tick changes no task's context, whichever tasks it switches between. */
  lemma TickKeepsViews<T>(s: State<T>, t: T)
    requires Closed(s) && t in s.saved
    ensures t in Tick(s).saved && View(Tick(s), t) == View(s, t)
  {
  }

  /** The steps of a run that `t` itself makes. */
  function OwnSteps<T>(s: State<T>, es: seq<Step<T>>, t: T): seq<Context>
    requires Closed(s)
    decreases |es|
  {
    if es == [] then []
    else
      TakeClosed(s, es[0]);
      var rest := OwnSteps(Take(s, es[0]), es[1..], t);
      if es[0].User? && s.curr == Some(t) then [es[0].context] + rest else rest
  }

  function LastOr(cs: seq<Context>, c: Context): Context { if cs == [] then c else cs[|cs| - 1] }

  lemma StepView<T>(s: State<T>, e: Step<T>, t: T)
    requires Closed(s) && t in s.saved
    ensures t in Take(s, e).saved
    ensures View(Take(s, e), t) == if e.User? && s.curr == Some(t) then e.context else View(s, t)
  {
    if e.Timer? {
      TickKeepsViews(s, t);
    }
  }

  /**
   * Over any interleaving of user steps, timer interrupts and additions, what a task finds is
   * the last context it left behind itself; no other task and no switch ever changes it.
   */
  lemma {:induction false} Isolation<T>(s: State<T>, es: seq<Step<T>>, t: T)
    requires Closed(s) && t in s.saved
    ensures Closed(Run(s, es)) && t in Run(s, es).saved
    ensures View(Run(s, es), t) == LastOr(OwnSteps(s, es, t), View(s, t))
    decreases |es|
  {
    if es != [] {
      TakeClosed(s, es[0]);
      StepView(s, es[0], t);
      Isolation(Take(s, es[0]), es[1..], t);
    }
  }

  /** A tick that dispatches a task resumes it exactly where it was. */
  lemma Resumes<T>(s: State<T>, t: T)
    requires Closed(s) && t in s.saved && Tick(s).curr == Some(t)
    ensures Tick(s).frame == View(s, t)
  {
    TickKeepsViews(s, t);
  }

  /** The loaded page table and kernel stack are always those of the current task. */
  lemma {:induction false} LoadedIsCurrent<T>(s: State<T>, es: seq<Step<T>>)
    requires Closed(s) && s.loaded == s.curr
    ensures Run(s, es).loaded == Run(s, es).curr
    decreases |es|
  {
    if es != [] {
      TakeClosed(s, es[0]);
      LoadedIsCurrent(Take(s, es[0]), es[1..]);
    }
  }

  // ---- bounded waiting ----

  /** The counter counts every tick of a run, before the scheduler is initialised too. */
  lemma {:induction false} JiffiesCount<T>(s: State<T>, es: seq<Step<T>>)
    requires Closed(s)
    ensures Run(s, es).jiffies == (s.jiffies + Ticks(es)) % WORD
    decreases |es|
  {
    if es != [] {
      TakeClosed(s, es[0]);
      JiffiesCount(Take(s, es[0]), es[1..]);
      WrapStep(s.jiffies, Ticks(es[1..]));
    }
  }

  lemma WrapStep(j: nat, n: nat)
    requires j < WORD
    ensures ((j + 1) % WORD + n) % WORD == (j + (1 + n)) % WORD
  {
  }

  /** A tick that switches to the head of the queue. */
  predicate Dispatches<T>(s: State<T>)
  {
    var s1 := SchedulerTick(s.(jiffies := (s.jiffies + 1) % WORD));
    s1.needResched && CanSwitch(s1)
  }

  function Ticks<T>(es: seq<Step<T>>): nat
  {
    if es == [] then 0 else (if es[0].Timer? then 1 else 0) + Ticks(es[1..])
  }

  /** Ticks until the counter is next a multiple of ten; the counter wraps at a number that is not one. */
  function Due(jiffies: nat): nat
    requires jiffies < WORD
  {
    if jiffies >= WORD - 6 then WORD - jiffies else 10 - jiffies % 10
  }

  lemma DueCounts(j: nat)
    requires j < WORD
    ensures 1 <= Due(j) <= 10
    ensures Due(j) == 1 <==> ((j + 1) % WORD) % 10 == 0
    ensures Due(j) > 1 ==> Due((j + 1) % WORD) == Due(j) - 1
  {
  }

  /** The state after the first `k` steps. */
  ghost function After<T>(s: State<T>, es: seq<Step<T>>, k: nat): State<T>
    requires Closed(s) && k <= |es|
  {
    Run(s, es[..k])
  }

  /** Step `k` of the run is a tick that dispatches `t`. */
  ghost predicate DispatchedAt<T>(s: State<T>, es: seq<Step<T>>, k: nat, t: T)
    requires Closed(s)
  {
    && k < |es| && es[k].Timer? && Dispatches(After(s, es, k)) && After(s, es, k).queue != []
    && After(s, es, k).queue[0] == t
  }

  lemma ShiftDispatch<T>(s: State<T>, es: seq<Step<T>>, k: nat, t: T)
    requires Closed(s) && es != [] && Closed(Take(s, es[0])) && DispatchedAt(Take(s, es[0]), es[1..], k, t)
    ensures DispatchedAt(s, es, k + 1, t)
    ensures Ticks(es[..k + 2]) == (if es[0].Timer? then 1 else 0) + Ticks(es[1..][..k + 1])
  {
    assert es[..k + 1][1..] == es[1..][..k];
    assert es[..k + 2][1..] == es[1..][..k + 1];
  }

  /**
   * Bounded waiting: with at least two queued tasks, the task at position i is dispatched within
   * the ticks to the next multiple of ten plus ten for each task before it, whatever the tasks do,
   * whatever is added, and even when the counter wraps.
   */
  lemma {:induction false} BoundedWaiting<T>(s: State<T>, es: seq<Step<T>>, i: nat) returns (k: nat)
    requires Closed(s) && s.initialised && |s.queue| >= 2 && i < |s.queue|
    requires Ticks(es) >= Due(s.jiffies) + 10 * i
    ensures DispatchedAt(s, es, k, s.queue[i])
    ensures Ticks(es[..k + 1]) <= Due(s.jiffies) + 10 * i
    decreases |es|
  {
    DueCounts(s.jiffies);
    var e, s1 := es[0], Take(s, es[0]);
    TakeClosed(s, e);
    if e.Timer? && Dispatches(s) && i == 0 {
      k := 0;
      assert es[..0] == [] && es[..1] == [e] && [e][1..] == [];
    } else {
      var i1 := if e.Timer? && Dispatches(s) then i - 1 else i;
      assert s1.queue[i1] == s.queue[i];
      DueCounts(s1.jiffies);
      k := BoundedWaiting(s1, es[1..], i1);
      ShiftDispatch(s, es, k, s.queue[i]);
      k := k + 1;
    }
  }

  /** Hence a task at position i is dispatched within 10 * (i + 1) ticks. */
  lemma WaitsAtMost<T>(s: State<T>, es: seq<Step<T>>, i: nat) returns (k: nat)
    requires Closed(s) && s.initialised && |s.queue| >= 2 && i < |s.queue|
    requires Ticks(es) >= 10 * (i + 1)
    ensures DispatchedAt(s, es, k, s.queue[i]) && Ticks(es[..k + 1]) <= 10 * (i + 1)
  {
    DueCounts(s.jiffies);
    k := BoundedWaiting(s, es, i);
  }

  // ---- the time slice ----

  /** A running task keeps the processor until the counter is next a multiple of ten. */
  lemma {:induction false} TimeSlice<T>(s: State<T>, es: seq<Step<T>>)
    requires Closed(s) && s.curr.Some? && !s.needResched && Ticks(es) < Due(s.jiffies)
    ensures var s' := Run(s, es);
            && Closed(s') && s'.curr == s.curr && s'.loaded == s.loaded && !s'.needResched
            && s.queue <= s'.queue && Due(s'.jiffies) == Due(s.jiffies) - Ticks(es)
    decreases |es|
  {
    if es != [] {
      DueCounts(s.jiffies);
      TakeClosed(s, es[0]);
      TimeSlice(Take(s, es[0]), es[1..]);
    }
  }

  /** And loses it then: with two tasks queued, the switch to the head comes at exactly that tick. */
  lemma SliceEnds<T>(s: State<T>, es: seq<Step<T>>)
    requires Closed(s) && s.curr.Some? && !s.needResched && |s.queue| >= 2 && Ticks(es) == Due(s.jiffies) - 1
    ensures var s' := Run(s, es + [Timer]);
            s'.curr == s'.loaded == Some(s.queue[0]) && !s'.needResched && s'.jiffies % 10 == 0
  {
    hide Due, Take, Run;
    TimeSlice(s, es);
    RunLast(s, es, Timer);
    DueCounts(Run(s, es).jiffies);
    DueTick(Run(s, es));
  }

  lemma DueTick<T>(s: State<T>)
    requires Closed(s) && s.initialised && |s.queue| >= 2 && ((s.jiffies + 1) % WORD) % 10 == 0
    ensures var s' := Take(s, Timer);
            s'.curr == s'.loaded == Some(s.queue[0]) && !s'.needResched && s'.jiffies % 10 == 0
  {
  }

  lemma {:induction false} RunLast<T>(s: State<T>, es: seq<Step<T>>, e: Step<T>)
    requires Closed(s)
    ensures Closed(Run(s, es)) && Run(s, es + [e]) == Take(Run(s, es), e)
    decreases |es|
  {
    if es == [] {
      assert es + [e] == [e] && [e][1..] == [];
      TakeClosed(s, e);
    } else {
      TakeClosed(s, es[0]);
      assert (es + [e])[1..] == es[1..] + [e];
      RunLast(Take(s, es[0]), es[1..], e);
    }
  }

  // ---- the first task ----

  /** Before the first dispatch the queue grows behind its head, and the head's context stays as it was. */
  lemma {:induction false} Waits<T>(s: State<T>, es: seq<Step<T>>)
    requires Closed(s) && s.initialised && s.curr.None? && Ticks(es) == 0
    ensures var s' := Run(s, es);
            && Closed(s') && s'.initialised && s'.curr.None? && s.queue <= s'.queue && s.queue[0] in s.saved
            && s.queue[0] in s'.saved && s'.saved[s.queue[0]] == s.saved[s.queue[0]]
    decreases |es|
  {
    if es != [] {
      TakeClosed(s, es[0]);
      Waits(Take(s, es[0]), es[1..]);
    }
  }

  /**
   * The first dispatch: whatever happens between scheduler_init and the next timer tick, that tick runs
   * the first task, alone in the queue or not, from its first context.
   */
  lemma FirstDispatch<T>(s: State<T>, t: T, c: Context, es: seq<Step<T>>)
    requires Closed(s) && s.queue == [] && s.curr.None? && t !in s.saved && Ticks(es) == 0
    ensures var s' := Run(s, [Init(t, c)] + es + [Timer]);
            s'.curr == s'.loaded == Some(t) && s'.frame == c && !s'.needResched
  {
    var e, s1 := Init(t, c), Take(s, Init(t, c));
    TakeClosed(s, e);
    Waits(s1, es);
    RunLast(s, [e] + es, Timer);
    assert ([e] + es)[1..] == es;
  }

  /** The contexts that the steps of a run leave in the frame. */
  function Contexts<T>(es: seq<Step<T>>): seq<Context>
  {
    if es == [] then [] else (if es[0].User? then [es[0].context] else []) + Contexts(es[1..])
  }

  lemma LastContext<T>(es: seq<Step<T>>, f: Context)
    requires Quiet(es)
    ensures es == [] ==> LastOr(Contexts(es), f) == f
    ensures es != [] ==> Quiet(es[1..]) && (es[0].User? || es[0].Timer?)
    ensures es != [] ==>
              var g := if es[0].User? then es[0].context else f; LastOr(Contexts(es), f) == LastOr(Contexts(es[1..]), g)
  {
  }

  lemma DueAtLeast(j: nat)
    requires j < WORD
    ensures Due(j) >= 1
  {
  }

  lemma LoneStep<T>(s: State<T>, e: Step<T>)
    requires Closed(s) && s.curr.Some? && s.queue == [s.curr.value] && (e.User? || e.Timer?)
    ensures var s' := Take(s, e);
            && s'.curr == s.curr && s'.loaded == s.loaded && s'.queue == s.queue
            && s'.frame == (if e.User? then e.context else s.frame)
            && s'.jiffies < WORD && (!e.Timer? ==> s'.jiffies == s.jiffies)
            && (e.Timer? && Due(s.jiffies) > 1 ==> Due(s'.jiffies) == Due(s.jiffies) - 1)
            && (s'.needResched <==> s.needResched || (e.Timer? && Due(s.jiffies) == 1))
  {
    DueCounts(s.jiffies);
  }

  /**
   * A lone task stays current, in its own context, as long as no other is added. Once its slice is over
   * the request to reschedule stays set.
   */
  lemma {:induction false} LoneTask<T>(s: State<T>, es: seq<Step<T>>)
    requires Closed(s) && s.curr.Some? && s.queue == [s.curr.value] && Quiet(es)
    ensures var s' := Run(s, es);
            && s'.curr == s.curr && s'.loaded == s.loaded && s'.queue == s.queue
            && s'.frame == LastOr(Contexts(es), s.frame)
            && (s'.needResched <==> s.needResched || Ticks(es) >= Due(s.jiffies))
    decreases |es|
  {
    hide Due, Take, Contexts, LastOr, Quiet;
    DueAtLeast(s.jiffies);
    LastContext(es, s.frame);
    if es != [] {
      TakeClosed(s, es[0]);
      LoneStep(s, es[0]);
      LoneTask(Take(s, es[0]), es[1..]);
    }
  }

  /** Until the next tick nothing is switched: the queue only grows. */
  lemma {:induction false} BetweenTicks<T>(s: State<T>, es: seq<Step<T>>)
    requires Closed(s) && s.needResched && Ticks(es) == 0
    ensures var s' := Run(s, es); Closed(s') && s'.needResched && s'.curr == s.curr && s.queue <= s'.queue
    decreases |es|
  {
    if es != [] {
      TakeClosed(s, es[0]);
      BetweenTicks(Take(s, es[0]), es[1..]);
    }
  }

  /** With that request set, the first tick after a second task was queued switches, due or not. */
  lemma PendingSwitch<T>(s: State<T>, es: seq<Step<T>>)
    requires Closed(s) && s.needResched && Ticks(es) == 0 && |Run(s, es).queue| >= 2
    ensures var s' := Run(s, es + [Timer]); s'.curr == s'.loaded == Some(s.queue[0]) && !s'.needResched
  {
    BetweenTicks(s, es);
    RunLast(s, es, Timer);
    hide Run;
  }

  // ---- round robin ----

  /** The tasks that a run dispatches, in order. */
  function Dispatched<T>(s: State<T>, es: seq<Step<T>>): seq<T>
    requires Closed(s)
    decreases |es|
  {
    if es == [] then []
    else
      TakeClosed(s, es[0]);
      var rest := Dispatched(Take(s, es[0]), es[1..]);
      if es[0].Timer? && Dispatches(s) then [s.queue[0]] + rest else rest
  }

  /** The k-th task of a queue that is read round and round. */
  function Around<T>(q: seq<T>, k: nat): T
    requires q != []
  {
    q[k % |q|]
  }

  lemma ModStep(k: nat, n: nat)
    requires n > 0
    ensures (k % n + 1) % n == (k + 1) % n
  {
    AddMultiple(k % n + 1, k / n, n);
    assert k + 1 == k / n * n + (k % n + 1);
  }

  lemma RotateAround<T>(q: seq<T>, k: nat)
    requires |q| > 1
    ensures Around(Rotate(q), k) == Around(q, k + 1)
  {
    var m := k % |q|;
    ModStep(k, |q|);
    if m + 1 < |q| {
      QuotientRemainder(m + 1, |q|, 0, m + 1);
    } else {
      QuotientRemainder(m + 1, |q|, 1, 0);
    }
  }

  /** No task is queued by the run. */
  predicate Quiet<T>(es: seq<Step<T>>) { forall k :: 0 <= k < |es| ==> es[k].User? || es[k].Timer? }

  /**
   * While no task is added, the k-th dispatch runs the k-th task of the queue, round and round,
   * and the queue is the same cycle started at the next task.
   */
  lemma {:induction false} RoundRobin<T>(s: State<T>, es: seq<Step<T>>)
    requires Closed(s) && |s.queue| > 1 && Quiet(es)
    ensures var d, q := Dispatched(s, es), Run(s, es).queue;
            && |q| == |s.queue|
            && (forall k :: 0 <= k < |d| ==> d[k] == Around(s.queue, k))
            && (forall k :: 0 <= k < |q| ==> q[k] == Around(s.queue, |d| + k))
    decreases |es|
  {
    hide Around, Take, Dispatches, Rotate;
    if es == [] {
      forall k | 0 <= k < |s.queue| ensures s.queue[k] == Around(s.queue, k) {
        AroundOnce(s.queue, k);
      }
    } else {
      TakeClosed(s, es[0]);
      QuietQueue(s, es[0]);
      var s1 := Take(s, es[0]);
      RoundRobin(s1, es[1..]);
      if es[0].Timer? && Dispatches(s) {
        var d1 := Dispatched(s1, es[1..]);
        var d, q := [s.queue[0]] + d1, Run(s, es).queue;
        AroundOnce(s.queue, 0);
        forall k | 0 < k < |d| ensures d[k] == Around(s.queue, k) {
          RotateAround(s.queue, k - 1);
          assert d[k] == d1[k - 1];
        }
        forall k | 0 <= k < |q| ensures q[k] == Around(s.queue, |d| + k) {
          RotateAround(s.queue, |d1| + k);
        }
      }
    }
  }

  lemma AroundOnce<T>(q: seq<T>, k: nat)
    requires k < |q|
    ensures Around(q, k) == q[k]
  {
    QuotientRemainder(k, |q|, 0, k);
  }

  lemma QuietQueue<T>(s: State<T>, e: Step<T>)
    requires Closed(s) && |s.queue| > 1 && (e.User? || e.Timer?)
    ensures Take(s, e).queue == if e.Timer? && Dispatches(s) then Rotate(s.queue) else s.queue
    ensures |Rotate(s.queue)| == |s.queue|
  {
  }

  /** So as many dispatches as there are tasks run each of them once and restore the queue. */
  lemma FullRound<T>(s: State<T>, es: seq<Step<T>>)
    requires Closed(s) && |s.queue| > 1 && Quiet(es) && |Dispatched(s, es)| == |s.queue|
    ensures Dispatched(s, es) == s.queue && Run(s, es).queue == s.queue
  {
    RoundRobin(s, es);
    var n := |s.queue|;
    forall k | 0 <= k < n ensures Around(s.queue, k) == s.queue[k] && Around(s.queue, n + k) == s.queue[k] {
      QuotientRemainder(k, n, 0, k);
      QuotientRemainder(n + k, n, 1, k);
    }
  }
}
