/** Picking the next task, sleeping and waking (kernel/sched.c, kernel/signal.c). */
module Scheduler {
  import opened Lists
  import opened Runs

  type Pid = int

  /** The kernel task. */
  const IDLE: Pid := 0

  const NO_TASK := 1000

  datatype TaskState = Running | Ready | Blocked | Zombie | Stopped

  /** The task list, the tasks' states and nice values, the current task, and the sleepers of each wait queue. */
  datatype State = State(list: seq<Pid>, state: map<Pid, TaskState>, nice: map<Pid, int>, current: Pid, queues: map<int, seq<Pid>>)

  ghost predicate Shape(s: State) {
    && NoDuplicates(s.list) && IDLE in s.list && s.current in s.list
    && (forall t | t in s.list :: t in s.state && t in s.nice && -20 <= s.nice[t] <= 19)
  }

  /** Every sleeper is blocked, and on one queue only. */
  ghost predicate Sleepers(s: State) {
    && (forall q, t {:trigger t in s.queues[q]} | q in s.queues && t in s.queues[q] :: t in s.list && t in s.state && s.state[t] == Blocked)
    && (forall q, r, t {:trigger t in s.queues[q], t in s.queues[r]} | q in s.queues && r in s.queues && t in s.queues[q] && t in s.queues[r] :: q == r)
    && (forall q {:trigger s.queues[q]} | q in s.queues :: NoDuplicates(s.queues[q]))
  }

  /** Between steps the current task is the only running one. */
  ghost predicate Ok(s: State) {
    && Shape(s) && Sleepers(s)
    && (forall t {:trigger s.state[t]} | t in s.list :: s.state[t] == Running <==> t == s.current)
  }

  /** t can be switched to. */
  predicate Runnable(s: State, t: Pid) {
    t in s.state && s.state[t] == Ready && t != s.current
  }

  /** What the scheduler promises of its choice: a runnable task of minimal nice value; or the current task, when nothing
      else is runnable or it is strictly better than all that is; or the idle task, when nothing is runnable and the
      current task cannot go on. */
  ghost predicate GoodChoice(s: State, next: Pid)
    requires Shape(s)
  {
    var keeps := s.state[s.current] == Running && forall t | t in s.list && Runnable(s, t) :: s.nice[s.current] < s.nice[t];
    if keeps then next == s.current
    else if exists t :: t in s.list && Runnable(s, t) then
      next in s.list && Runnable(s, next) && forall t | t in s.list && Runnable(s, t) :: s.nice[next] <= s.nice[t]
    else next == IDLE
  }

  /** The first loop of pick_next_task. */
  method BestOther(s: State) returns (best: int)
    requires Shape(s)
    ensures best == NO_TASK <==> forall t | t in s.list :: !Runnable(s, t)
    ensures best != NO_TASK ==> best <= 19 && exists t :: t in s.list && Runnable(s, t) && s.nice[t] == best
    ensures forall t | t in s.list && Runnable(s, t) :: best <= s.nice[t]
  {
    best := NO_TASK;
    var i := 0;
    while i < |s.list|
      invariant i <= |s.list|
      invariant best == NO_TASK || (best <= 19 && exists t :: t in s.list && Runnable(s, t) && s.nice[t] == best)
      invariant forall k | 0 <= k < i && Runnable(s, s.list[k]) :: best <= s.nice[s.list[k]]
    {
      var t := s.list[i];
      assert t in s.list;
      if s.state[t] == Ready && t != s.current {
        if s.nice[t] < best {
          best := s.nice[t];
        }
      }
      i := i + 1;
    }
  }

  /** The task at a position of the list can be switched to and has this nice value. */
  predicate Candidate(s: State, best: int, i: nat)
    requires Shape(s) && i < |s.list|
  {
    assert s.list[i] in s.list;
    Runnable(s, s.list[i]) && s.nice[s.list[i]] == best
  }

  /** The first candidate from a position on, or -1. */
  function FirstCandidate(s: State, best: int, from: nat): (i: int)
    requires Shape(s) && from <= |s.list|
    ensures i == -1 || (from <= i < |s.list| && Candidate(s, best, i))
    ensures forall k | from <= k < if i == -1 then |s.list| else i :: !Candidate(s, best, k)
    decreases |s.list| - from
  {
    if from == |s.list| then -1 else if Candidate(s, best, from) then from else FirstCandidate(s, best, from + 1)
  }

  /** The candidate whose turn it is in a round: the first one after the current task, or else the first of all. */
  function InTurn(s: State, best: int, current: nat): int
    requires Shape(s) && current < |s.list|
  {
    if FirstCandidate(s, best, current + 1) >= 0 then FirstCandidate(s, best, current + 1) else FirstCandidate(s, best, 0)
  }

  /** The first candidate of the list, which is the one that is picked, has its turn exactly when no candidate precedes the
      current task or none follows it. */
  lemma PickIsRoundRobinIff(s: State, best: int, current: nat)
    requires Shape(s) && current < |s.list| && s.list[current] == s.current && FirstCandidate(s, best, 0) >= 0
    ensures s.list[FirstCandidate(s, best, 0)] == s.list[InTurn(s, best, current)] <==>
              (forall k | 0 <= k < current :: !Candidate(s, best, k)) || (forall k | current < k < |s.list| :: !Candidate(s, best, k))
  {
    assert !Candidate(s, best, current);
  }

  /** Of three equal tasks the second runs: the first is picked again, though it is the third one's turn. */
  lemma TurnIsMissed()
    ensures var s := State([IDLE, 1, 2, 3], map[IDLE := Blocked, 1 := Ready, 2 := Running, 3 := Ready],
                           map[IDLE := 19, 1 := 0, 2 := 0, 3 := 0], 2, map[]);
            Shape(s) && FirstCandidate(s, 0, 0) == 1 && InTurn(s, 0, 2) == 3
  {
    var s := State([IDLE, 1, 2, 3], map[IDLE := Blocked, 1 := Ready, 2 := Running, 3 := Ready],
                   map[IDLE := 19, 1 := 0, 2 := 0, 3 := 0], 2, map[]);
    assert !Candidate(s, 0, 0) && Candidate(s, 0, 1) && Candidate(s, 0, 3);
  }

  /** The search of pick_next_task over the list: the current task is not READY when the scheduler runs, so it never
      finds it, and the second pass decides. */
  method PickAmong(s: State, best: int) returns (next: Pid, found: bool)
    requires Shape(s) && s.state[s.current] != Ready
    ensures found <==> exists t :: t in s.list && Runnable(s, t) && s.nice[t] == best
    ensures found ==> next in s.list && Runnable(s, next) && s.nice[next] == best
    ensures found <==> FirstCandidate(s, best, 0) >= 0
    ensures found ==> next == s.list[FirstCandidate(s, best, 0)]
  {
    next, found := IDLE, false;
    var foundCurrent := false;
    var i := 0;
    while i < |s.list| && !found
      invariant i <= |s.list| && !foundCurrent && !found
    {
      var t := s.list[i];
      assert t in s.list;
      if s.state[t] == Ready && s.nice[t] == best {
        if foundCurrent {
          next, found := t, true;
        }
        if t == s.current {
          foundCurrent := true;
        }
      }
      i := i + 1;
    }
    i := 0;
    while i < |s.list| && !found
      invariant i <= |s.list|
      invariant !found ==> FirstCandidate(s, best, 0) == FirstCandidate(s, best, i)
      invariant found ==> 0 < i && FirstCandidate(s, best, 0) == i - 1 && s.list[i - 1] == next && Candidate(s, best, i - 1)
    {
      var t := s.list[i];
      assert t in s.list;
      if s.state[t] == Ready && s.nice[t] == best && t != s.current {
        next, found := t, true;
      }
      i := i + 1;
    }
    SomeCandidate(s, best);
  }

  lemma SomeCandidate(s: State, best: int)
    requires Shape(s)
    ensures FirstCandidate(s, best, 0) >= 0 <==> exists t :: t in s.list && Runnable(s, t) && s.nice[t] == best
  {
    forall t | t in s.list && Runnable(s, t) && s.nice[t] == best
      ensures FirstCandidate(s, best, 0) >= 0
    {
      var i :| 0 <= i < |s.list| && s.list[i] == t;
      assert Candidate(s, best, i);
    }
    if FirstCandidate(s, best, 0) >= 0 {
      assert s.list[FirstCandidate(s, best, 0)] in s.list;
    }
  }

  /** pick_next_task; the fallback makes the idle task RUNNING. */
  method PickNextTask(s: State) returns (next: Pid, s': State)
    requires Shape(s) && s.state[s.current] != Ready
    ensures next in s.list && GoodChoice(s, next)
    ensures s' == s || (next == IDLE && s.state[s.current] != Running && s' == s.(state := s.state[IDLE := Running]))
    ensures next == s.current ==> s'.state[next] == Running
  {
    s' := s;
    next := s.current;
    var best := BestOther(s);
    var keep := s.state[s.current] == Running && (best == NO_TASK || s.nice[s.current] < best);
    if !keep {
      var found;
      next, found := PickAmong(s, best);
      if !found {
        next := IDLE;
        s' := s.(state := s.state[IDLE := Running]);
      }
    }
  }

  /** As Ok, but the current task may be going to sleep, stop or exit. */
  ghost predicate Leaving(s: State) {
    && Shape(s) && Sleepers(s) && s.state[s.current] != Ready
    && (forall t {:trigger s.state[t]} | t in s.list && t != s.current :: s.state[t] != Running)
  }

  /** The end of sleep_on: a task that runs again takes its node off the queue if wake_up has not. */
  function OffQueues(queues: map<int, seq<Pid>>, t: Pid): map<int, seq<Pid>> {
    map q | q in queues :: Without(queues[q], t)
  }

  /** Each queue loses the task and nothing else, and keeps its order. */
  ghost predicate TakenOff(queues: map<int, seq<Pid>>, queues': map<int, seq<Pid>>, t: Pid) {
    && queues'.Keys == queues.Keys
    && forall q {:trigger queues'[q]} | q in queues :: Removed(queues[q], queues'[q], t)
  }

  lemma OffQueuesKeeps(s: State, t: Pid)
    requires Sleepers(s)
    ensures Sleepers(s.(queues := OffQueues(s.queues, t)))
    ensures TakenOff(s.queues, OffQueues(s.queues, t), t)
    ensures forall q, x | q in s.queues :: x in OffQueues(s.queues, t)[q] <==> x in s.queues[q] && x != t
  {
    forall q | q in s.queues
      ensures NoDuplicates(Without(s.queues[q], t)) && forall x :: x in Without(s.queues[q], t) <==> x in s.queues[q] && x != t
    {
      WithoutFacts(s.queues[q], t);
    }
    forall q {:trigger s.queues[q]} | q in s.queues
      ensures Removed(s.queues[q], OffQueues(s.queues, t)[q], t)
    {
      WithoutRemoves(s.queues[q], t);
    }
  }

  /** A task that is not blocked is in no queue. */
  lemma NotAsleep(s: State, t: Pid)
    requires Sleepers(s) && t in s.state && s.state[t] != Blocked
    ensures forall q | q in s.queues :: t !in s.queues[q]
  {
  }

  /** A task in no queue can have any state. */
  lemma StateOfNonSleeper(s: State, t: Pid, st: TaskState)
    requires Sleepers(s) && t in s.state && forall q | q in s.queues :: t !in s.queues[q]
    ensures Sleepers(s.(state := s.state[t := st]))
  {
  }

  /** What schedule does to the state: a good choice runs and is on no queue any more, a task that was preempted is ready
      again (the idle task waits), and all others are as they were. */
  ghost predicate Scheduled(s: State, s': State)
    requires Shape(s)
  {
    && GoodChoice(s, s'.current) && s'.list == s.list && s'.nice == s.nice && TakenOff(s.queues, s'.queues, s'.current)
    && s.state.Keys <= s'.state.Keys && s'.current in s'.state && s'.state[s'.current] == Running
    && (forall t | t in s.list && t != s'.current && t != s.current :: s'.state[t] == s.state[t])
    && (s'.current != s.current ==>
          s'.state[s.current] == if s.state[s.current] != Running then s.state[s.current] else if s.current == IDLE then Blocked else Ready)
  }

  /** schedule, up to where the chosen task goes on. */
  method Schedule(s: State) returns (s': State)
    requires Leaving(s)
    ensures Ok(s') && Scheduled(s, s') && TakenOff(s.queues, s'.queues, s'.current)
    ensures if s'.current != s.current && s.state[s'.current] == Ready then
              forall t | t in s.list && t != s.current && s.state[t] == Ready :: s.nice[s'.current] <= s.nice[t]
            else if s'.current == s.current && s.state[s.current] == Running then
              forall t | t in s.list && t != s.current && s.state[t] == Ready :: s.nice[s.current] < s.nice[t]
            else s'.current == IDLE && forall t | t in s.list && t != s.current :: s.state[t] != Ready
    ensures s'.current != s.current && s.state[s.current] == Running ==>
              exists t :: t in s.list && t != s.current && s.state[t] == Ready && s.nice[t] <= s.nice[s.current]
  {
    var prev := s.current;
    var next;
    next, s' := PickNextTask(s);
    ghost var chosen := next;
    OffQueuesKeeps(s, next);
    s' := s'.(queues := OffQueues(s.queues, next));
    if next != prev {
      if s.state[prev] == Running {
        s' := s'.(state := s'.state[prev := if prev == IDLE && next != IDLE then Blocked else Ready]);
      }
      s' := s'.(state := s'.state[next := Running], current := next);
    }
    Switched(s, next, s');
  }

  /** After a switch the chosen task is the only running one. */
  lemma Switched(s: State, next: Pid, s': State)
    requires Leaving(s) && next in s.list
    requires s'.list == s.list && s'.nice == s.nice && s'.current == next && s'.queues == OffQueues(s.queues, next)
    requires s'.state.Keys == s.state.Keys && s'.state[next] == Running
    requires forall t | t in s.list && t != next && t != s.current :: s'.state[t] == s.state[t]
    requires next != s.current ==> s'.state[s.current] != Running && (s.state[s.current] != Running ==> s'.state[s.current] == s.state[s.current])
    ensures Ok(s')
  {
    OffQueuesKeeps(s, next);
    forall q, t {:trigger t in s'.queues[q]} | q in s'.queues && t in s'.queues[q]
      ensures t in s'.list && t in s'.state && s'.state[t] == Blocked
    {
      assert t in s.queues[q] && t != next;
      assert s.state[t] == Blocked;
    }
  }

  /** The current task at the end of a wait queue. */
  function Asleep(s: State, q: int): State
    requires q in s.queues
  {
    s.(queues := s.queues[q := s.queues[q] + [s.current]], state := s.state[s.current := Blocked])
  }

  /** sleep_on, up to where the next task goes on: the caller is on the queue until it runs again. */
  method SleepOn(s: State, q: int) returns (s': State)
    requires Ok(s) && q in s.queues
    ensures Ok(s') && Shape(Asleep(s, q)) && Scheduled(Asleep(s, q), s') && q in s'.queues
    ensures TakenOff(s.queues[q := s.queues[q] + [s.current]], s'.queues, s'.current)
    ensures s'.current != s.current ==> s.current in s'.queues[q] && s'.state[s.current] == Blocked
    ensures s.current != IDLE ==> s'.current != s.current
  {
    var c := s.current;
    NotAsleep(s, c);
    var s1 := Asleep(s, q);
    EnqueueKeeps(s, q, s1);
    s' := Schedule(s1);
    if s'.current != c {
      RemovedFacts(s1.queues[q], s'.queues[q], s'.current);
    }
  }

  lemma EnqueueKeeps(s: State, q: int, s1: State)
    requires Ok(s) && q in s.queues && forall r | r in s.queues :: s.current !in s.queues[r]
    requires s1 == Asleep(s, q)
    ensures Leaving(s1)
  {
    forall r, t {:trigger t in s1.queues[r]} | r in s1.queues && t in s1.queues[r]
      ensures t in s.list && s1.state[t] == Blocked && ((t == s.current && r == q) || (t != s.current && t in s.queues[r]))
    {
    }
  }

  /** wake_up: every sleeper of the queue becomes ready, and the queue is empty. */
  method WakeUp(s: State, q: int) returns (s': State)
    requires Ok(s) && q in s.queues
    ensures Ok(s') && s'.current == s.current && s'.list == s.list && s'.nice == s.nice
    ensures s'.queues == s.queues[q := []]
    ensures forall t | t in s.list :: s'.state[t] == if t in s.queues[q] then Ready else s.state[t]
  {
    var state := s.state;
    for i := 0 to |s.queues[q]|
      invariant state.Keys == s.state.Keys
      invariant forall t | t in s.state :: state[t] == if t in s.queues[q][..i] then Ready else s.state[t]
    {
      var t := s.queues[q][i];
      assert t in s.queues[q] && s.queues[q][..i + 1] == s.queues[q][..i] + [t];
      if state[t] == Blocked {
        state := state[t := Ready];
      }
    }
    assert s.queues[q][..|s.queues[q]|] == s.queues[q];
    s' := s.(state := state, queues := s.queues[q := []]);
    forall r, t {:trigger t in s'.queues[r]} | r in s'.queues && t in s'.queues[r]
      ensures t in s.list && s'.state[t] == Blocked
    {
      assert t in s.queues[r];
    }
  }

  /** The current task stops or exits: it leaves the CPU in the given state. */
  method Leave(s: State, st: TaskState) returns (s': State)
    requires Ok(s) && s.current != IDLE && (st == Stopped || st == Zombie)
    ensures Ok(s') && Shape(s.(state := s.state[s.current := st])) && Scheduled(s.(state := s.state[s.current := st]), s')
    ensures s'.current != s.current && s'.state[s.current] == st
  {
    NotAsleep(s, s.current);
    StateOfNonSleeper(s, s.current, st);
    s' := Schedule(s.(state := s.state[s.current := st]));
  }

  /** SIGCONT, or a fatal signal, to a stopped task. */
  method Continue(s: State, t: Pid) returns (s': State)
    requires Ok(s) && t in s.list
    ensures Ok(s') && s' == (if s.state[t] == Stopped then s.(state := s.state[t := Ready]) else s)
  {
    s' := s;
    if s.state[t] == Stopped {
      NotAsleep(s, t);
      StateOfNonSleeper(s, t, Ready);
      s' := s.(state := s.state[t := Ready]);
    }
  }

  /** A new task: alloc_task and add_task. */
  method Create(s: State, t: Pid, nice: int) returns (s': State)
    requires Ok(s) && t !in s.list && -20 <= nice <= 19
    ensures Ok(s') && s' == s.(list := s.list + [t], state := s.state[t := Ready], nice := s.nice[t := nice])
  {
    s' := s.(list := s.list + [t], state := s.state[t := Ready], nice := s.nice[t := nice]);
    assert forall x :: x in s'.list <==> x in s.list || x == t;
    forall q, x {:trigger x in s'.queues[q]} | q in s'.queues && x in s'.queues[q]
      ensures x in s'.list && s'.state[x] == Blocked
    {
      assert x in s.queues[q];
    }
  }

  /** A zombie is reaped: remove_task and free_task. */
  method Reap(s: State, t: Pid) returns (s': State)
    requires Ok(s) && t in s.list && s.state[t] == Zombie && t != IDLE
    ensures Ok(s') && s' == s.(list := Without(s.list, t))
  {
    WithoutFacts(s.list, t);
    s' := s.(list := Without(s.list, t));
    forall q, x {:trigger x in s'.queues[q]} | q in s'.queues && x in s'.queues[q]
      ensures x in s'.list && s'.state[x] == Blocked
    {
      assert x in s.queues[q] && s.state[x] == Blocked;
    }
  }

  datatype Step =
    | Tick
    | Sleep(queue: int)
    | Wake(queue: int)
    | Stop
    | Exit
    | Cont(task: Pid)
    | Make(task: Pid, nice: int)
    | Wait(child: Pid)
    | Nice(task: Pid, value: int)

  /** Steps that can happen: the idle task neither stops nor exits, and a new pid is unused. */
  predicate Allowed(s: State, step: Step) {
    match step
    case Tick => true
    case Sleep(q) => q in s.queues
    case Wake(q) => q in s.queues
    case Stop => s.current != IDLE
    case Exit => s.current != IDLE
    case Cont(t) => t in s.list
    case Make(t, n) => t !in s.list && -20 <= n <= 19
    case Wait(t) => t in s.list && t in s.state && s.state[t] == Zombie && t != IDLE
    case Nice(t, n) => t in s.list && -20 <= n <= 19
  }

  /** What one step leads to. */
  ghost predicate Follows(s: State, step: Step, s': State)
    requires Ok(s) && Allowed(s, step)
  {
    match step
    case Tick => Scheduled(s, s')
    case Sleep(q) => Shape(Asleep(s, q)) && Scheduled(Asleep(s, q), s')
    case Wake(q) => s' == s.(state := s'.state, queues := s.queues[q := []])
                    && forall t | t in s.list :: t in s'.state && s'.state[t] == if t in s.queues[q] then Ready else s.state[t]
    case Stop => var s1 := s.(state := s.state[s.current := Stopped]); Shape(s1) && Scheduled(s1, s')
    case Exit => var s1 := s.(state := s.state[s.current := Zombie]); Shape(s1) && Scheduled(s1, s')
    case Cont(t) => s' == if s.state[t] == Stopped then s.(state := s.state[t := Ready]) else s
    case Make(t, n) => s' == s.(list := s.list + [t], state := s.state[t := Ready], nice := s.nice[t := n])
    case Wait(t) => s' == s.(list := Without(s.list, t))
    case Nice(t, n) => s' == s.(nice := s.nice[t := n])
  }

  /** A step leads from a sound state to what it makes of it; a step that is not allowed does not happen. */
  ghost predicate Next(s: State, step: Step, s': State) {
    Ok(s) && if Allowed(s, step) then Follows(s, step, s') else s' == s
  }

  /** Who is on a queue after a step: the caller of sleep_on is added to its queue, wake_up makes every task of its queue
      ready, and otherwise a task leaves only by running. */
  ghost predicate QueuesFollow(s: State, step: Step, s': State) {
    && s'.queues.Keys == s.queues.Keys
    && (forall q, t {:trigger t in s'.queues[q]} | q in s.queues ::
          t in s'.queues[q] <==> step != Wake(q) && (t in s.queues[q] || (step == Sleep(q) && t == s.current)) && t != s'.current)
    && (forall q, t {:trigger t in s.queues[q]} | q in s.queues && t in s.queues[q] && step == Wake(q) ::
          t in s'.state && s'.state[t] == Ready)
  }

  lemma ScheduledQueues(s: State, s': State)
    requires Shape(s) && Sleepers(s) && Scheduled(s, s')
    ensures s'.queues.Keys == s.queues.Keys && forall q, t {:trigger t in s'.queues[q]} | q in s.queues :: t in s'.queues[q] <==> t in s.queues[q] && t != s'.current
  {
    forall q | q in s.queues
      ensures forall t :: t in s'.queues[q] <==> t in s.queues[q] && t != s'.current
    {
      assert Removed(s.queues[q], s'.queues[q], s'.current);
      RemovedFacts(s.queues[q], s'.queues[q], s'.current);
    }
  }

  lemma NextMovesSleepers(s: State, step: Step, s': State)
    requires Next(s, step, s') && Ok(s')
    ensures QueuesFollow(s, step, s')
  {
    NotAsleep(s, s.current);
    NotAsleep(s', s'.current);
    if Allowed(s, step) {
      match step
      case Tick => ScheduledQueues(s, s');
      case Sleep(q) =>
        EnqueueKeeps(s, q, Asleep(s, q));
        ScheduledQueues(Asleep(s, q), s');
      case Stop =>
        StateOfNonSleeper(s, s.current, Stopped);
        ScheduledQueues(s.(state := s.state[s.current := Stopped]), s');
      case Exit =>
        StateOfNonSleeper(s, s.current, Zombie);
        ScheduledQueues(s.(state := s.state[s.current := Zombie]), s');
      case _ =>
    }
  }

  /** What the steps that concern one task do. */
  ghost predicate TaskChanges(s: State, step: Step, s': State)
    requires Ok(s)
  {
    match step
    case Stop => s.current != IDLE ==> s'.current != s.current && s.current in s'.state && s'.state[s.current] == Stopped
    case Exit => s.current != IDLE ==> s'.current != s.current && s.current in s'.state && s'.state[s.current] == Zombie
    case Cont(t) => t in s.list && s.state[t] == Stopped ==> s' == s.(state := s.state[t := Ready])
    case Make(t, n) =>
      t !in s.list && -20 <= n <= 19 ==> s' == s.(list := s.list + [t], state := s.state[t := Ready], nice := s.nice[t := n])
    case Wait(t) => t in s.list && s.state[t] == Zombie && t != IDLE ==> s'.state == s.state && Removed(s.list, s'.list, t)
    case Nice(t, n) => t in s.list && -20 <= n <= 19 ==> s' == s.(nice := s.nice[t := n])
    case _ => true
  }

  lemma NextChangesTask(s: State, step: Step, s': State)
    requires Next(s, step, s')
    ensures TaskChanges(s, step, s')
  {
    if step.Wait? {
      WithoutRemoves(s.list, step.child);
    }
  }

  /** Task t sleeps on queue q at state i and neither runs nor is woken up to state j. */
  ghost predicate Waits(states: seq<State>, steps: seq<Step>, t: Pid, q: int, i: nat, j: nat) {
    && i <= j < |states| <= |steps| + 1 && q in states[i].queues && t in states[i].queues[q]
    && (forall k {:trigger states[k]} | i < k <= j :: states[k].current != t)
    && (forall k {:trigger steps[k]} | i <= k < j :: steps[k] != Wake(q))
  }

  /** Every state of a run is sound, a sleeper stays blocked on its queue until it runs or the queue is woken, and waking
      the queue makes it ready. */
  ghost predicate SleepersStay(states: seq<State>, steps: seq<Step>)
    requires |states| == |steps| + 1
  {
    && (forall i {:trigger states[i]} | 0 <= i < |states| :: Ok(states[i]))
    && (forall i {:trigger steps[i]} | 0 <= i < |steps| ::
          QueuesFollow(states[i], steps[i], states[i + 1]) && TaskChanges(states[i], steps[i], states[i + 1]))
    && (forall t, q, i: nat, j: nat | Waits(states, steps, t, q, i, j) ::
          && q in states[j].queues && t in states[j].queues[q] && t in states[j].state && states[j].state[t] == Blocked
          && (j < |steps| && steps[j] == Wake(q) ==> t in states[j + 1].state && states[j + 1].state[t] == Ready))
  }

  lemma {:induction false} StaysAsleep(states: seq<State>, steps: seq<Step>, t: Pid, q: int, i: nat, j: nat)
    requires |states| == |steps| + 1 && Waits(states, steps, t, q, i, j)
    requires forall i {:trigger steps[i]} | 0 <= i < |steps| :: QueuesFollow(states[i], steps[i], states[i + 1])
    ensures q in states[j].queues && t in states[j].queues[q]
  {
    if i < j {
      StaysAsleep(states, steps, t, q, i, j - 1);
      assert QueuesFollow(states[j - 1], steps[j - 1], states[j]);
    }
  }

  lemma RunOfSleepers(states: seq<State>, steps: seq<Step>)
    requires IsRun(Next, states, steps) && Ok(states[|steps|])
    ensures SleepersStay(states, steps)
  {
    forall i {:trigger states[i]} | 0 <= i < |states|
      ensures Ok(states[i])
    {
      assert i < |steps| ==> IsStep(Next, states, steps, i);
    }
    forall i {:trigger steps[i]} | 0 <= i < |steps|
      ensures QueuesFollow(states[i], steps[i], states[i + 1]) && TaskChanges(states[i], steps[i], states[i + 1])
    {
      assert IsStep(Next, states, steps, i);
      NextChangesTask(states[i], steps[i], states[i + 1]);
      NextMovesSleepers(states[i], steps[i], states[i + 1]);
    }
    forall t, q, i: nat, j: nat | Waits(states, steps, t, q, i, j)
      ensures q in states[j].queues && t in states[j].queues[q] && t in states[j].state && states[j].state[t] == Blocked
      ensures j < |steps| && steps[j] == Wake(q) ==> t in states[j + 1].state && states[j + 1].state[t] == Ready
    {
      StaysAsleep(states, steps, t, q, i, j);
    }
  }

  class Cpu {
    var s: State

    ghost predicate Valid()
      reads this
    {
      Ok(s)
    }

    /** sched_init, with some wait queues. */
    constructor (queues: set<int>)
      ensures Valid() && s.current == IDLE && s.list == [IDLE]
    {
      s := State([IDLE], map[IDLE := Running], map[IDLE := 0], IDLE, map q | q in queues :: []);
    }

    method Do(step: Step)
      requires Valid() && Allowed(s, step)
      modifies this
      ensures Valid() && Follows(old(s), step, s)
    {
      match step
      case Tick =>
        s := Schedule(s);
      case Sleep(q) =>
        s := SleepOn(s, q);
      case Wake(q) =>
        s := WakeUp(s, q);
      case Stop =>
        s := Leave(s, Stopped);
      case Exit =>
        s := Leave(s, Zombie);
      case Cont(t) =>
        s := Continue(s, t);
      case Make(t, n) =>
        s := Create(s, t, n);
      case Wait(t) =>
        s := Reap(s, t);
      case Nice(t, n) =>
        s := s.(nice := s.nice[t := n]);
    }

    /** Every run, by its states: between any two steps exactly one task of the list is running, the current one, and
        sleepers are blocked until they run or are woken. */
    method Run(steps: seq<Step>) returns (ghost states: seq<State>)
      requires Valid()
      modifies this
      ensures IsRun(Next, states, steps) && states[0] == old(s) && states[|steps|] == s && Valid()
      ensures SleepersStay(states, steps)
    {
      states := [s];
      for i := 0 to |steps|
        invariant Valid() && IsRun(Next, states, steps[..i]) && states[0] == old(s) && states[i] == s
      {
        if Allowed(s, steps[i]) {
          Do(steps[i]);
        }
        assert steps[..i + 1] == steps[..i] + [steps[i]];
        ExtendRun(Next, states, steps[..i], steps[i], s);
        states := states + [s];
      }
      assert steps[..|steps|] == steps;
      RunOfSleepers(states, steps);
    }
  }
}
