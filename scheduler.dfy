/**
 * The per-CPU scheduler queue: the status machine of a scheduler entry
 * (`SchedulerEntry`) and the queue that picks the next task to run
 * (`SchedulerQueue`).
 *
 * `scheduler_queue.cpp` drives the status with `compare_exchange_strong` loops. The
 * model is single-threaded: a failed exchange reports the status it saw,
 * and the retry with that status succeeds. A `KM_PANIC` arm is a case the
 * caller must not reach, so it becomes a precondition.
 */
module Scheduler {
  import opened Status

  /** `km::os_instant::min()`, the instant `wake` stores. */
  const MinInstant: int := -0x8000_0000_0000_0000

  /** `os_instant::max()`, the last instant a 64-bit tick count holds. */
  const MaxInstant: int := 0x7FFF_FFFF_FFFF_FFFF

  /** A point in time, no earlier than `MinInstant`. */
  type Instant = t: int | MinInstant <= t witness 0

  datatype TaskStatus = Idle | Running | Suspended | Terminated | Closed

  datatype WakeResult = Sleep | Wake | Discard

  datatype ScheduleResult = CpuIdle | Resume

  /** The register file saved for a task while it is not running. */
  datatype TaskState = TaskState(registers: seq<int>)

  /** What a scheduler entry holds apart from its saved registers. */
  datatype Entry = Entry(status: TaskStatus, sleepUntil: Instant)

  /** The new entry and the answer of one operation on it. */
  datatype Outcome<A> = Outcome(entry: Entry, answer: A)

  /** A task that has been terminated, whether or not it has been reaped. */
  predicate Finished(s: TaskStatus)
  {
    s == Terminated || s == Closed
  }

  // ---------------------------------------------------------------------
  // One operation on one entry
  // ---------------------------------------------------------------------

  /** `wakeIfTimeout` panics on a running task whose timeout has passed. */
  predicate CanWake(e: Entry, now: Instant)
  {
    now < e.sleepUntil || e.status != Running
  }

  /** `SchedulerEntry::wakeIfTimeout`. */
  function TimeoutStep(e: Entry, now: Instant): (r: Outcome<WakeResult>)
    requires CanWake(e, now)
    ensures r.answer == Sleep <==> now < e.sleepUntil
    ensures r.answer == Discard <==> e.sleepUntil <= now && Finished(e.status)
    ensures r.answer != Wake ==> r.entry == e
    ensures r.answer == Wake ==> r.entry == e.(status := Idle)
  {
    if now < e.sleepUntil then Outcome(e, Sleep)
    else if Finished(e.status) then Outcome(e, Discard)
    else Outcome(e.(status := Idle), Wake)
  }

  /** `SchedulerEntry::wake`: the deadline moves to the earliest instant. */
  function WakeStep(e: Entry): (r: Entry)
    ensures r.status == e.status && r.sleepUntil == MinInstant
  {
    e.(sleepUntil := MinInstant)
  }

  /**
   * `SchedulerEntry::sleep` in `scheduler_queue.cpp`. An idle task is
   * suspended by the first exchange, which does not record the timeout; a
   * running or suspended task raises its deadline to the timeout before it
   * is suspended.
   */
  function SleepStepAsWritten(e: Entry, timeout: Instant): (r: Outcome<bool>)
    ensures r.answer <==> !Finished(e.status)
    ensures !r.answer ==> r.entry == e
    ensures r.answer ==> r.entry.status == Suspended
    ensures e.sleepUntil <= r.entry.sleepUntil
    ensures r.entry.sleepUntil == e.sleepUntil || (r.answer && e.status != Idle && r.entry.sleepUntil == timeout)
    ensures e.status == Running || e.status == Suspended ==> timeout <= r.entry.sleepUntil
  {
    match e.status
    case Idle => Outcome(e.(status := Suspended), true)
    case Running | Suspended =>
      var until := if e.sleepUntil < timeout then timeout else e.sleepUntil;
      Outcome(Entry(Suspended, until), true)
    case Terminated | Closed => Outcome(e, false)
  }

  /**
   * `SchedulerEntry::sleep` with the timeout recorded on every path that
   * suspends the task: a task that is not finished is suspended with its
   * deadline raised to the timeout; a finished one is left alone.
   */
  function SleepStep(e: Entry, timeout: Instant): (r: Outcome<bool>)
    ensures r.answer <==> !Finished(e.status)
    ensures !r.answer ==> r.entry == e
    ensures r.answer ==> r.entry.status == Suspended
    ensures r.answer ==> r.entry.sleepUntil == (if e.sleepUntil < timeout then timeout else e.sleepUntil)
  {
    if Finished(e.status) then Outcome(e, false)
    else Outcome(Entry(Suspended, if e.sleepUntil < timeout then timeout else e.sleepUntil), true)
  }

  /** Both rules agree on every task that is not idle. */
  lemma SleepStepAgrees(e: Entry, timeout: Instant)
    requires e.status != Idle
    ensures SleepStepAsWritten(e, timeout) == SleepStep(e, timeout)
  {
  }

  /** `SchedulerEntry::terminate`: closed stays closed, all else terminates. */
  function TerminateStep(e: Entry): (r: Entry)
    ensures Finished(r.status) && r.sleepUntil == e.sleepUntil
    ensures e.status == Closed <==> r.status == Closed
  {
    if e.status == Closed then e else e.(status := Terminated)
  }

  /** The statuses `moveTaskToIdle` and `keepTaskRunning` do not panic on. */
  predicate Descheduling(s: TaskStatus)
  {
    s == Running || s == Suspended || s == Terminated
  }

  /** The statuses `moveTaskToRunning` does not panic on. */
  predicate Queued(s: TaskStatus)
  {
    s == Idle || s == Suspended || s == Terminated
  }

  /** A status change made by the queue, and whether the task was taken. */
  datatype Transition = Transition(status: TaskStatus, accepted: bool)

  /**
   * A task the queue meets but does not run: a suspended task is left as
   * it is and a terminated one is closed.
   */
  function Reap(s: TaskStatus): (r: TaskStatus)
    requires s == Suspended || s == Terminated
    ensures Finished(s) <==> r == Closed
    ensures !Finished(s) ==> r == s
  {
    if s == Terminated then Closed else s
  }

  /** `SchedulerQueue::moveTaskToIdle`: accepted means requeue the task. */
  function IdleStep(s: TaskStatus): (r: Transition)
    requires Descheduling(s)
    ensures r.accepted <==> s == Running
    ensures r.accepted ==> r.status == Idle
    ensures !r.accepted ==> r.status == Reap(s)
  {
    if s == Running then Transition(Idle, true) else Transition(Reap(s), false)
  }

  /** `SchedulerQueue::moveTaskToRunning`: accepted means run the task. */
  function RunStep(s: TaskStatus): (r: Transition)
    requires Queued(s)
    ensures r.accepted <==> s == Idle
    ensures r.accepted ==> r.status == Running
    ensures !r.accepted ==> r.status == Reap(s)
  {
    if s == Idle then Transition(Running, true) else Transition(Reap(s), false)
  }

  /** `SchedulerQueue::keepTaskRunning`: accepted means the task goes on. */
  function KeepStep(s: TaskStatus): (r: Transition)
    requires Descheduling(s)
    ensures r.accepted <==> s == Running
    ensures r.accepted ==> r.status == s
    ensures !r.accepted ==> r.status == Reap(s)
  {
    if s == Running then Transition(s, true) else Transition(Reap(s), false)
  }

  // ---------------------------------------------------------------------
  // Properties of the status machine
  // ---------------------------------------------------------------------

  /** Terminating twice is terminating once. */
  lemma TerminateIdempotent(e: Entry)
    ensures TerminateStep(TerminateStep(e)) == TerminateStep(e)
  {
  }

  /** After `wake`, the next timeout check never leaves the task asleep. */
  lemma WakeEndsSleep(e: Entry, now: Instant)
    requires e.status != Running
    ensures TimeoutStep(WakeStep(e), now).answer != Sleep
  {
  }

  /**
   * A task that is not finished, put to sleep, stays asleep at every
   * instant before its timeout, and is woken (back to idle) at any instant
   * at or after its deadline.
   */
  lemma SleepHoldsUntilTimeout(e: Entry, timeout: Instant, now: Instant)
    requires !Finished(e.status)
    ensures now < timeout ==> TimeoutStep(SleepStep(e, timeout).entry, now).answer == Sleep
    ensures SleepStep(e, timeout).entry.sleepUntil <= now
      ==> TimeoutStep(SleepStep(e, timeout).entry, now) == Outcome(SleepStep(e, timeout).entry.(status := Idle), Wake)
  {
  }

  /**
   * As written, an idle task is suspended without its timeout: with the
   * deadline it had already passed, it is woken at the very next check,
   * however late the timeout it was given.
   */
  lemma IdleSleepKeepsDeadline(e: Entry, timeout: Instant, now: Instant)
    requires e.status == Idle && e.sleepUntil <= now
    ensures SleepStepAsWritten(e, timeout).answer
    ensures TimeoutStep(SleepStepAsWritten(e, timeout).entry, now).answer == Wake
  {
  }

  /** A freshly woken idle task put to sleep until the last instant is woken at once by `sleep` as written, but not by the corrected rule. */
  lemma IdleSleepForeverExample(now: Instant)
    requires now < MaxInstant
    ensures var e := Entry(Idle, MinInstant);
      TimeoutStep(SleepStepAsWritten(e, MaxInstant).entry, now).answer == Wake
      && TimeoutStep(SleepStep(e, MaxInstant).entry, now).answer == Sleep
  {
  }

  /** A call on an entry, as the status machine sees it. */
  datatype Call =
    | WakeIfTimeoutCall(now: Instant)
    | WakeCall
    | SleepCall(timeout: Instant)
    | TerminateCall
    | MoveToIdleCall
    | MoveToRunningCall
    | KeepRunningCall

  /** The call does not reach a panic. */
  predicate Permitted(e: Entry, c: Call)
  {
    match c
    case WakeIfTimeoutCall(now) => CanWake(e, now)
    case MoveToIdleCall => Descheduling(e.status)
    case MoveToRunningCall => Queued(e.status)
    case KeepRunningCall => Descheduling(e.status)
    case _ => true
  }

  function Apply(e: Entry, c: Call): Entry
    requires Permitted(e, c)
  {
    match c
    case WakeIfTimeoutCall(now) => TimeoutStep(e, now).entry
    case WakeCall => WakeStep(e)
    case SleepCall(timeout) => SleepStep(e, timeout).entry
    case TerminateCall => TerminateStep(e)
    case MoveToIdleCall => e.(status := IdleStep(e.status).status)
    case MoveToRunningCall => e.(status := RunStep(e.status).status)
    case KeepRunningCall => e.(status := KeepStep(e.status).status)
  }

  /** The call hands the CPU to the task. */
  predicate Scheduled(e: Entry, c: Call)
    requires Permitted(e, c)
  {
    (c == MoveToRunningCall && RunStep(e.status).accepted) || (c == KeepRunningCall && KeepStep(e.status).accepted)
  }

  predicate PermittedRun(e: Entry, calls: seq<Call>)
    decreases |calls|
  {
    |calls| == 0 || (Permitted(e, calls[0]) && PermittedRun(Apply(e, calls[0]), calls[1..]))
  }

  function Run(e: Entry, calls: seq<Call>): Entry
    requires PermittedRun(e, calls)
    decreases |calls|
  {
    if |calls| == 0 then e else Run(Apply(e, calls[0]), calls[1..])
  }

  /** Some call of the run hands the CPU to the task. */
  predicate RunsAgain(e: Entry, calls: seq<Call>)
    requires PermittedRun(e, calls)
    decreases |calls|
  {
    |calls| > 0 && (Scheduled(e, calls[0]) || RunsAgain(Apply(e, calls[0]), calls[1..]))
  }

  /**
   * Once terminated, a task stays terminated or closed whatever is done
   * to it, and is never scheduled again.
   */
  lemma {:induction false} FinishedIsFinal(e: Entry, calls: seq<Call>)
    requires Finished(e.status) && PermittedRun(e, calls)
    ensures Finished(Run(e, calls).status)
    ensures !RunsAgain(e, calls)
    decreases |calls|
  {
    if |calls| > 0 {
      FinishedIsFinal(Apply(e, calls[0]), calls[1..]);
    }
  }

  /** A closed task stays closed. */
  lemma {:induction false} ClosedIsFinal(e: Entry, calls: seq<Call>)
    requires e.status == Closed && PermittedRun(e, calls)
    ensures Run(e, calls).status == Closed
    decreases |calls|
  {
    if |calls| > 0 {
      ClosedIsFinal(Apply(e, calls[0]), calls[1..]);
    }
  }

  /** Nothing that follows `terminate` runs the task again. */
  lemma TerminateEndsRun(e: Entry, calls: seq<Call>)
    requires PermittedRun(e, [TerminateCall] + calls)
    ensures !RunsAgain(e, [TerminateCall] + calls)
  {
    assert ([TerminateCall] + calls)[1..] == calls;
    FinishedIsFinal(TerminateStep(e), calls);
  }

  // ---------------------------------------------------------------------
  // SchedulerEntry
  // ---------------------------------------------------------------------

  class SchedulerEntry {
    var status: TaskStatus
    var sleepUntil: Instant
    var state: TaskState

    function Snapshot(): Entry
      reads this`status, this`sleepUntil
    {
      Entry(status, sleepUntil)
    }

    /** `compare_exchange_strong` on the status with no other thread. */
    method CompareExchange(expected: TaskStatus, desired: TaskStatus) returns (swapped: bool, observed: TaskStatus)
      modifies this`status
      ensures observed == old(status)
      ensures swapped <==> old(status) == expected
      ensures status == (if swapped then desired else old(status))
    {
      observed := status;
      swapped := status == expected;
      if swapped {
        status := desired;
      }
    }

    /** `atomicMax` on the deadline. */
    method RaiseSleepUntil(timeout: Instant)
      modifies this`sleepUntil
      ensures sleepUntil == (if old(sleepUntil) < timeout then timeout else old(sleepUntil))
    {
      if sleepUntil < timeout {
        sleepUntil := timeout;
      }
    }

    method WakeIfTimeout(now: Instant) returns (result: WakeResult)
      requires CanWake(Snapshot(), now)
      modifies this`status
      ensures Outcome(Snapshot(), result) == TimeoutStep(old(Snapshot()), now)
    {
      if sleepUntil > now {
        return WakeResult.Sleep;
      }
      var expected := Suspended;
      var swapped, observed := CompareExchange(expected, Idle);
      while !swapped
        invariant swapped ==> status == Idle && (old(status) == Suspended || old(status) == Idle)
        invariant !swapped ==> status == old(status) == observed && observed != Suspended
        decreases if swapped then 0 else 1
      {
        match observed {
          case Running | Suspended =>
            assert false;
          case Idle =>
          case Terminated | Closed =>
            return Discard;
        }
        expected := observed;
        swapped, observed := CompareExchange(expected, Idle);
      }
      return Wake;
    }

    method WakeUp()
      modifies this`sleepUntil
      ensures Snapshot() == WakeStep(old(Snapshot()))
    {
      sleepUntil := MinInstant;
    }

    method Sleep(timeout: Instant) returns (asleep: bool)
      modifies this`status, this`sleepUntil
      ensures Outcome(Snapshot(), asleep) == SleepStep(old(Snapshot()), timeout)
    {
      var expected := Idle;
      var swapped, observed := CompareExchange(expected, Suspended);
      if swapped {
        // The corrected path: an idle task records its timeout too.
        RaiseSleepUntil(timeout);
      }
      while !swapped
        invariant swapped ==> Snapshot() == SleepStep(old(Snapshot()), timeout).entry && !Finished(old(status))
        invariant !swapped ==> status == old(status) == observed && observed != Idle && sleepUntil == old(sleepUntil)
        decreases if swapped then 0 else 1
      {
        match observed {
          case Closed | Terminated =>
            return false;
          case Running | Suspended =>
            RaiseSleepUntil(timeout);
          case Idle =>
            // The first exchange expected an idle task.
            assert false;
        }
        expected := observed;
        swapped, observed := CompareExchange(expected, Suspended);
      }
      return true;
    }

    method Terminate()
      modifies this`status
      ensures Snapshot() == TerminateStep(old(Snapshot()))
    {
      var expected := Idle;
      var swapped, observed := CompareExchange(expected, Terminated);
      while !swapped
        invariant swapped ==> status == Terminated && old(status) != Closed
        invariant !swapped ==> status == old(status) == observed
        decreases if swapped then 0 else 1
      {
        match observed {
          case Running | Idle | Suspended =>
          case Terminated | Closed =>
            return;
        }
        expected := observed;
        swapped, observed := CompareExchange(expected, Terminated);
      }
    }

    method IsClosed() returns (closed: bool)
      ensures closed <==> status == Closed
    {
      closed := status == Closed;
    }
  }

  // ---------------------------------------------------------------------
  // The queue's view of its entries
  // ---------------------------------------------------------------------

  /** No entry appears twice. */
  predicate Distinct(q: seq<SchedulerEntry>)
  {
    forall i, j :: 0 <= i < j < |q| ==> q[i] != q[j]
  }

  function Statuses(q: seq<SchedulerEntry>): (r: seq<TaskStatus>)
    reads q
    ensures |r| == |q| && forall i :: 0 <= i < |q| ==> r[i] == q[i].status
  {
    if |q| == 0 then [] else [q[0].status] + Statuses(q[1..])
  }

  function Snapshots(q: seq<SchedulerEntry>): (r: seq<Entry>)
    reads q`status, q`sleepUntil
    ensures |r| == |q| && forall i :: 0 <= i < |q| ==> r[i] == q[i].Snapshot()
  {
    if |q| == 0 then [] else [q[0].Snapshot()] + Snapshots(q[1..])
  }

  /** The index of the first idle status, or `|s|` when there is none. */
  function FirstIdle(s: seq<TaskStatus>): (k: nat)
    ensures k <= |s|
    ensures k < |s| ==> s[k] == Idle
    ensures forall i :: 0 <= i < k ==> s[i] != Idle
  {
    if |s| == 0 then 0
    else if s[0] == Idle then 0
    else 1 + FirstIdle(s[1..])
  }

  /** Every entry popped before the first idle one is suspended or terminated. */
  predicate Poppable(s: seq<TaskStatus>)
  {
    forall i :: 0 <= i < FirstIdle(s) ==> s[i] == Suspended || s[i] == Terminated
  }

  /** The first `n` sleeping entries that stay asleep at `now`. */
  function StillAsleep(q: seq<SchedulerEntry>, s: seq<Entry>, now: Instant, n: nat): seq<SchedulerEntry>
    requires |q| == |s| && n <= |q|
  {
    if n == 0 then []
    else StillAsleep(q, s, now, n - 1) + (if now < s[n - 1].sleepUntil then [q[n - 1]] else [])
  }

  /** The first `n` sleeping entries that go back to the run queue at `now`. */
  function Awoken(q: seq<SchedulerEntry>, s: seq<Entry>, now: Instant, n: nat): seq<SchedulerEntry>
    requires |q| == |s| && n <= |q|
  {
    if n == 0 then []
    else Awoken(q, s, now, n - 1) + (if s[n - 1].sleepUntil <= now && !Finished(s[n - 1].status) then [q[n - 1]] else [])
  }

  /** Every sleeping entry can be checked without a panic. */
  predicate AllCanWake(s: seq<Entry>, now: Instant)
  {
    forall i :: 0 <= i < |s| ==> CanWake(s[i], now)
  }

  /**
   * The sleeping entries `q0`, whose entries were `s0`, after the first `j`
   * of them were checked at `now`: those are checked, the others untouched.
   */
  predicate Progress(q0: seq<SchedulerEntry>, s0: seq<Entry>, now: Instant, j: nat)
    requires |s0| == |q0| && AllCanWake(s0, now) && j <= |q0|
    reads q0`status, q0`sleepUntil
  {
    && (forall i :: 0 <= i < |q0| ==> q0[i].sleepUntil == s0[i].sleepUntil)
    && (forall i :: 0 <= i < j ==> q0[i].status == TimeoutStep(s0[i], now).entry.status)
    && (forall i :: j <= i < |q0| ==> q0[i].status == s0[i].status)
  }

  /**
   * The two lists after the first `j` sleeping entries of `q0` were checked
   * at `now`: `sleeping` holds the ones still asleep and then the unchecked
   * rest, with `it` at the first unchecked one, and the awoken ones follow
   * `base` in `queue`.
   */
  predicate Lists(q0: seq<SchedulerEntry>, s0: seq<Entry>, now: Instant, j: nat,
                  base: seq<SchedulerEntry>, sleeping: seq<SchedulerEntry>, queue: seq<SchedulerEntry>, it: nat)
  {
    && |s0| == |q0| && j <= |q0|
    && it <= |sleeping| && sleeping[..it] == StillAsleep(q0, s0, now, j) && sleeping[it..] == q0[j..]
    && queue == base + Awoken(q0, s0, now, j)
  }

  /** Looking at more entries never wakes fewer. */
  lemma {:induction false} AwokenGrows(q: seq<SchedulerEntry>, s: seq<Entry>, now: Instant, m: nat, n: nat)
    requires |q| == |s| && m <= n <= |q|
    ensures |Awoken(q, s, now, m)| <= |Awoken(q, s, now, n)|
    decreases n - m
  {
    if m < n {
      AwokenGrows(q, s, now, m, n - 1);
    }
  }

  // ---------------------------------------------------------------------
  // SchedulerQueue
  // ---------------------------------------------------------------------

  class SchedulerQueue {
    /** The capacity of the run queue (`EntryQueue`). */
    const capacity: nat
    /** The run queue, first to pop at the front. */
    var queue: seq<SchedulerEntry>
    var current: SchedulerEntry?
    /** A task that did not fit back in the run queue. */
    var rescue: SchedulerEntry?
    var sleeping: seq<SchedulerEntry>

    /** `SchedulerQueue::create`. */
    constructor (capacity: nat)
      ensures this.capacity == capacity
      ensures queue == [] && sleeping == [] && current == null && rescue == null
    {
      this.capacity := capacity;
      queue := [];
      sleeping := [];
      current := null;
      rescue := null;
    }

    /** `EntryQueue::tryPush`. */
    method TryPush(task: SchedulerEntry) returns (pushed: bool)
      modifies this`queue
      ensures pushed <==> |old(queue)| < capacity
      ensures queue == (if pushed then old(queue) + [task] else old(queue))
    {
      pushed := |queue| < capacity;
      if pushed {
        queue := queue + [task];
      }
    }

    method MoveTaskToIdle(task: SchedulerEntry) returns (requeue: bool)
      requires Descheduling(task.status)
      modifies task`status
      ensures Transition(task.status, requeue) == IdleStep(old(task.status))
    {
      var swapped, observed := task.CompareExchange(Running, Idle);
      if !swapped {
        match observed {
          case Running | Idle | Closed =>
            assert false;
          case Suspended =>
            return false;
          case Terminated =>
            task.status := Closed;
            return false;
        }
      }
      return true;
    }

    method MoveTaskToRunning(task: SchedulerEntry) returns (run: bool)
      requires Queued(task.status)
      modifies task`status
      ensures Transition(task.status, run) == RunStep(old(task.status))
    {
      var swapped, observed := task.CompareExchange(Idle, Running);
      if !swapped {
        match observed {
          case Running | Idle | Closed =>
            assert false;
          case Suspended =>
            return false;
          case Terminated =>
            task.status := Closed;
            return false;
        }
      }
      return true;
    }

    method KeepTaskRunning(task: SchedulerEntry) returns (keep: bool)
      requires Descheduling(task.status)
      modifies task`status
      ensures Transition(task.status, keep) == KeepStep(old(task.status))
    {
      match task.status {
        case Running =>
          return true;
        case Suspended =>
          return false;
        case Terminated =>
          task.status := Closed;
          return false;
      }
    }

    /**
     * `SchedulerQueue::takeNextTask`: pops entries until one can run. The
     * entries popped before it are reaped; the rest are left queued.
     */
    method TakeNextTask() returns (found: bool, next: SchedulerEntry?)
      requires Distinct(queue) && Poppable(Statuses(queue))
      modifies this`queue, queue`status
      ensures found <==> FirstIdle(old(Statuses(queue))) < |old(queue)|
      ensures found ==> var k := FirstIdle(old(Statuses(queue)));
        next == old(queue)[k] && next.status == Running && queue == old(queue)[k + 1..]
      ensures !found ==> queue == [] && next == null
      ensures forall i :: 0 <= i < FirstIdle(old(Statuses(queue))) ==>
        old(queue)[i].status == Reap(old(Statuses(queue))[i])
      ensures forall i :: FirstIdle(old(Statuses(queue))) < i < |old(queue)| ==>
        old(queue)[i].status == old(Statuses(queue))[i]
    {
      ghost var q0 := queue;
      ghost var s0 := Statuses(queue);
      ghost var k := FirstIdle(s0);
      ghost var i := 0;
      while |queue| > 0
        invariant 0 <= i <= k && queue == q0[i..]
        invariant forall j :: 0 <= j < i ==> q0[j].status == Reap(s0[j])
        invariant forall j :: i <= j < |q0| ==> q0[j].status == s0[j]
        decreases |queue|
      {
        var task, run := PopAndRun(q0, s0, i);
        if run {
          return true, task;
        }
        i := i + 1;
      }
      return false, null;
    }

    /**
     * One round of `takeNextTask`'s loop: pop the head and try to run it.
     * `q0` and `s0` are the queue and its statuses when the loop began and
     * `i` the number of entries popped since.
     */
    method PopAndRun(ghost q0: seq<SchedulerEntry>, ghost s0: seq<TaskStatus>, ghost i: nat)
      returns (task: SchedulerEntry, run: bool)
      requires Distinct(q0) && |s0| == |q0| && Poppable(s0)
      requires i <= FirstIdle(s0) && i < |q0| && queue == q0[i..]
      requires forall j :: 0 <= j < i ==> q0[j].status == Reap(s0[j])
      requires forall j :: i <= j < |q0| ==> q0[j].status == s0[j]
      modifies this`queue, {q0[i]}`status
      ensures task == q0[i] && queue == q0[i + 1..]
      ensures run <==> i == FirstIdle(s0)
      ensures run ==> task.status == Running
      ensures forall j :: 0 <= j < i ==> q0[j].status == Reap(s0[j])
      ensures !run ==> q0[i].status == Reap(s0[i])
      ensures forall j :: i < j < |q0| ==> q0[j].status == s0[j]
    {
      task := queue[0];
      queue := queue[1..];
      assert task == q0[i];
      run := MoveTaskToRunning(task);
    }

    /**
     * `SchedulerQueue::setCurrentTask`: a current task that was still
     * running goes back to the run queue, or to the rescue slot when the
     * queue is full.
     */
    method SetCurrentTask(task: SchedulerEntry)
      requires task.status == Running && task != current
      requires current != null ==> Descheduling(current.status)
      requires current != null && current.status == Running && |queue| >= capacity ==> rescue == null
      modifies this`queue, this`rescue, this`current, {current}`status
      ensures current == task
      ensures old(current) != null ==> old(current).status == IdleStep(old(current.status)).status
      ensures var requeue := old(current) != null && old(current.status) == Running;
        if requeue && |old(queue)| < capacity then queue == old(queue) + [old(current)] && rescue == old(rescue)
        else if requeue then queue == old(queue) && rescue == old(current)
        else queue == old(queue) && rescue == old(rescue)
    {
      if current != null {
        var requeue := MoveTaskToIdle(current);
        if requeue {
          var pushed := TryPush(current);
          if !pushed {
            rescue := current;
          }
        }
      }
      current := task;
    }

    /**
     * `SchedulerQueue::reschedule`: `state` is the register file of the
     * interrupted task; the answer says whether the CPU idles or resumes
     * the returned register file.
     */
    method Reschedule(state: TaskState) returns (result: ScheduleResult, resumed: TaskState)
      requires Distinct(queue) && Poppable(Statuses(queue)) && |queue| <= capacity
      requires current != null ==> current !in queue && Descheduling(current.status)
      modifies this`queue, this`current, this`rescue, queue`status, {current}`status, {current}`state
      ensures var k := FirstIdle(old(Statuses(queue)));
        result == Resume <==> k < |old(queue)| || (old(current) != null && old(current.status) == Running)
      ensures result == Resume <==> current != null
      ensures current != null ==> current.status == Running
      ensures old(queue) == [] && old(current) == null ==> result == CpuIdle
      ensures var k := FirstIdle(old(Statuses(queue)));
        k < |old(queue)| ==> current == old(queue)[k] && resumed == old(queue[k].state)
      ensures var k := FirstIdle(old(Statuses(queue)));
        k == |old(queue)| ==> resumed == state && (current == null || current == old(current))
      ensures var k := FirstIdle(old(Statuses(queue)));
        k < |old(queue)| && old(current) != null && old(current.status) == Running ==>
          queue == old(queue)[k + 1..] + [old(current)]
      ensures old(current) != null && current != old(current) ==> old(current).state == state
      ensures rescue == old(rescue)
    {
      var found, newTask := TakeNextTask();
      if !found {
        if current == null {
          return CpuIdle, state;
        }
        var keep := KeepTaskRunning(current);
        if !keep {
          current.state := state;
          current := null;
          return CpuIdle, state;
        }
        return Resume, state;
      }
      if current != null {
        current.state := state;
      }
      SetCurrentTask(newTask);
      return Resume, newTask.state;
    }

    /**
     * `SchedulerQueue::enqueue`: the rescued task goes back first; the
     * answer is `OutOfMemory` when either does not fit.
     */
    method Enqueue(state: TaskState, entry: SchedulerEntry) returns (status: OsStatus)
      requires entry.status == Idle
      modifies this`queue, this`rescue, entry`state
      ensures status == Success || status == OutOfMemory
      ensures var waiting := if old(rescue) != null then 1 else 0;
        status == Success <==> |old(queue)| + waiting < capacity
      ensures old(rescue) != null && |old(queue)| >= capacity ==>
        queue == old(queue) && rescue == old(rescue) && entry.state == old(entry.state)
      ensures old(rescue) == null || |old(queue)| < capacity ==>
        var before := if old(rescue) != null then old(queue) + [old(rescue)] else old(queue);
        rescue == null && entry.state == state
        && queue == (if status == Success then before + [entry] else before)
    {
      if rescue != null {
        var pushed := TryPush(rescue);
        if pushed {
          rescue := null;
        } else {
          return OutOfMemory;
        }
      }
      entry.state := state;
      var pushed := TryPush(entry);
      if !pushed {
        return OutOfMemory;
      }
      return Success;
    }

    /**
     * `SchedulerQueue::wakeSleepingTasks`: every sleeping entry whose
     * deadline has passed leaves the sleeping list; the live ones join the
     * run queue in list order. The answer counts the entries that left.
     */
    method WakeSleepingTasks(now: Instant) returns (woken: nat)
      requires Distinct(sleeping) && AllCanWake(Snapshots(sleeping), now)
      requires |queue| + |Awoken(sleeping, Snapshots(sleeping), now, |sleeping|)| <= capacity
      modifies this`queue, this`sleeping, sleeping`status
      ensures sleeping == StillAsleep(old(sleeping), old(Snapshots(sleeping)), now, |old(sleeping)|)
      ensures queue == old(queue) + Awoken(old(sleeping), old(Snapshots(sleeping)), now, |old(sleeping)|)
      ensures woken == |old(sleeping)| - |sleeping|
      ensures forall i :: 0 <= i < |old(sleeping)| ==>
        old(sleeping)[i].status == TimeoutStep(old(Snapshots(sleeping))[i], now).entry.status
    {
      woken := WakeAll(now, sleeping, Snapshots(sleeping));
    }

    /**
     * The loop of `wakeSleepingTasks`, over the sleeping list `q0` whose
     * entries are `s0` when it begins.
     */
    method WakeAll(now: Instant, ghost q0: seq<SchedulerEntry>, ghost s0: seq<Entry>) returns (woken: nat)
      requires sleeping == q0 && Distinct(q0) && |s0| == |q0| && AllCanWake(s0, now)
      requires Progress(q0, s0, now, 0)
      requires |queue| + |Awoken(q0, s0, now, |q0|)| <= capacity
      modifies this`queue, this`sleeping, q0`status
      ensures sleeping == StillAsleep(q0, s0, now, |q0|)
      ensures queue == old(queue) + Awoken(q0, s0, now, |q0|)
      ensures woken == |q0| - |sleeping|
      ensures Progress(q0, s0, now, |q0|)
    {
      ghost var j := 0;
      var it: nat := 0;
      woken := 0;
      while it < |sleeping|
        invariant j <= |q0| && Progress(q0, s0, now, j)
        invariant Lists(q0, s0, now, j, old(queue), sleeping, queue, it)
        invariant woken + it == j
        decreases |q0| - j
      {
        it, woken := WakeRound(now, q0, s0, old(queue), j, it, woken);
        j := j + 1;
      }
      AllChecked(q0, s0, now, j, old(queue), sleeping, queue, it);
    }

    /**
     * One round of `wakeSleepingTasks`'s loop: the `j`th entry of the
     * sleeping list `q0`, whose entries were `s0`, sits at `it` and is
     * checked, then kept, requeued or dropped; `base` is the run queue
     * when the loop began.
     */
    method WakeRound(now: Instant, ghost q0: seq<SchedulerEntry>, ghost s0: seq<Entry>,
                     ghost base: seq<SchedulerEntry>, ghost j: nat, it: nat, woken: nat)
      returns (nextIt: nat, nextWoken: nat)
      requires woken + it == j
      requires Distinct(q0) && |s0| == |q0| && AllCanWake(s0, now) && j < |q0|
      requires |base| + |Awoken(q0, s0, now, |q0|)| <= capacity
      requires Progress(q0, s0, now, j)
      requires Lists(q0, s0, now, j, base, sleeping, queue, it)
      modifies this`queue, this`sleeping, q0`status
      ensures Lists(q0, s0, now, j + 1, base, sleeping, queue, nextIt)
      ensures nextWoken + nextIt == j + 1
      ensures Progress(q0, s0, now, j + 1)
    {
      assert sleeping[it] == sleeping[it..][0] == q0[j..][0] == q0[j];
      var task := sleeping[it];
      var result := WakeEntry(task, now, q0, s0, j);
      var left;
      nextIt, left := RequeueRound(now, q0, s0, base, j, it, task, result);
      nextWoken := if left then woken + 1 else woken;
    }

    /** The list half of `WakeRound`, once the entry was checked with `result`. */
    method RequeueRound(now: Instant, ghost q0: seq<SchedulerEntry>, ghost s0: seq<Entry>,
                        ghost base: seq<SchedulerEntry>, ghost j: nat, it: nat,
                        task: SchedulerEntry, result: WakeResult)
      returns (nextIt: nat, left: bool)
      requires |s0| == |q0| && j < |q0| && CanWake(s0[j], now) && task == q0[j]
      requires result == TimeoutStep(s0[j], now).answer
      requires |base| + |Awoken(q0, s0, now, |q0|)| <= capacity
      requires Lists(q0, s0, now, j, base, sleeping, queue, it)
      modifies this`queue, this`sleeping
      ensures Lists(q0, s0, now, j + 1, base, sleeping, queue, nextIt)
      ensures left ==> nextIt == it
      ensures !left ==> nextIt == it + 1
    {
      ListStep(q0, s0, now, j, base, sleeping, queue, it);
      AwokenGrows(q0, s0, now, j + 1, |q0|);
      nextIt, left := Requeue(task, result, it);
    }

    /**
     * The list half of one round of `wakeSleepingTasks`'s loop: `task`,
     * the entry at `it`, was checked with `result`.
     */
    method Requeue(task: SchedulerEntry, result: WakeResult, it: nat) returns (nextIt: nat, left: bool)
      requires it < |sleeping| && sleeping[it] == task
      requires result == Wake ==> |queue| < capacity
      modifies this`queue, this`sleeping
      ensures left <==> result != Sleep
      ensures sleeping == if left then old(sleeping)[..it] + old(sleeping)[it + 1..] else old(sleeping)
      ensures queue == if result == Wake then old(queue) + [task] else old(queue)
      ensures left ==> nextIt == it
      ensures !left ==> nextIt == it + 1
    {
      match result {
        case Sleep =>
          nextIt, left := it + 1, false;
        case Wake =>
          sleeping := sleeping[..it] + sleeping[it + 1..];
          var pushed := TryPush(task);
          assert pushed;
          nextIt, left := it, true;
        case Discard =>
          sleeping := sleeping[..it] + sleeping[it + 1..];
          nextIt, left := it, true;
      }
    }
  }

  /** `wakeSleepingTasks`'s loop stops once every sleeping entry was checked. */
  lemma AllChecked(q0: seq<SchedulerEntry>, s0: seq<Entry>, now: Instant, j: nat,
                   base: seq<SchedulerEntry>, sleeping: seq<SchedulerEntry>, queue: seq<SchedulerEntry>, it: nat)
    requires Lists(q0, s0, now, j, base, sleeping, queue, it) && it >= |sleeping|
    ensures j == |q0| && sleeping == StillAsleep(q0, s0, now, |q0|)
    ensures queue == base + Awoken(q0, s0, now, |q0|)
  {
    assert |q0[j..]| == |sleeping[it..]| == 0;
    assert sleeping == sleeping[..it];
  }

  /**
   * One round of `wakeSleepingTasks`'s loop on the lists: `q0` and `s0`
   * are the sleeping list and its entries when the loop began, `base` the
   * run queue then, and `j` the number of entries checked. The entry at
   * `it` is the `j`th one; it stays, or leaves and joins the run queue
   * when it wakes.
   */
  lemma ListStep(q0: seq<SchedulerEntry>, s0: seq<Entry>, now: Instant, j: nat,
                 base: seq<SchedulerEntry>, sleeping: seq<SchedulerEntry>, queue: seq<SchedulerEntry>, it: nat)
    requires Lists(q0, s0, now, j, base, sleeping, queue, it) && j < |q0| && CanWake(s0[j], now)
    ensures it < |sleeping| && sleeping[it] == q0[j]
    ensures var result := TimeoutStep(s0[j], now).answer;
      Lists(q0, s0, now, j + 1, base,
            if result != Sleep then sleeping[..it] + sleeping[it + 1..] else sleeping,
            if result == Wake then queue + [q0[j]] else queue,
            if result != Sleep then it else it + 1)
  {
    var kept := StillAsleep(q0, s0, now, j);
    assert sleeping[it..][0] == q0[j..][0];
    assert sleeping[it + 1..] == sleeping[it..][1..] == q0[j..][1..] == q0[j + 1..];
    if now < s0[j].sleepUntil {
      assert StillAsleep(q0, s0, now, j + 1) == kept + [q0[j]];
      assert sleeping[..it + 1] == sleeping[..it] + [sleeping[it]];
    } else {
      assert StillAsleep(q0, s0, now, j + 1) == kept;
      var left := sleeping[..it] + sleeping[it + 1..];
      assert left[..it] == sleeping[..it] && left[it..] == sleeping[it + 1..];
    }
  }

  /**
   * The entry half of one round of `wakeSleepingTasks`'s loop: `task` is
   * the `j`th entry of the sleeping list `q0`, whose entries were `s0`.
   */
  method WakeEntry(task: SchedulerEntry, now: Instant, ghost q0: seq<SchedulerEntry>, ghost s0: seq<Entry>, ghost j: nat)
    returns (result: WakeResult)
    requires Distinct(q0) && |s0| == |q0| && AllCanWake(s0, now) && j < |q0| && task == q0[j]
    requires Progress(q0, s0, now, j)
    modifies task`status
    ensures result == TimeoutStep(s0[j], now).answer
    ensures Progress(q0, s0, now, j + 1)
  {
    result := task.WakeIfTimeout(now);
  }
}
