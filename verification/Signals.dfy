/** Delivering signals to user handlers and returning from them (kernel/signal.c). */
module Signals {
  import opened Runs

  const NSIG := 32
  const WORD := 0x1_0000_0000
  const SIGKILL := 9
  const SIGSTOP := 19

  /** A 32-bit signal mask as the set of its bits. */
  type Mask = set<int>

  const UNBLOCKABLE: Mask := {SIGKILL, SIGSTOP}

  datatype Handler = Default | Ignore | User(address: int)

  /** The registers that delivery and return touch. */
  datatype Regs = Regs(ip: int, sp: int, flags: int, ret: int)

  /** An action: handler, extra mask, SA_NODEFER and SA_RESETHAND. */
  datatype Action = Action(handler: Handler, mask: Mask, noDefer: bool, resetHand: bool)

  predicate DefaultTerminates(sig: int) {
    1 <= sig <= 15 || sig == 24 || sig == 25 || sig == 26 || sig == 27 || 29 <= sig <= 31
  }

  predicate DefaultStops(sig: int) {
    19 <= sig <= 22
  }

  /** Every signal's default is one of three. */
  lemma DefaultsAreThree(sig: int)
    requires 1 <= sig < NSIG
    ensures DefaultTerminates(sig) <==> sig !in {16, 17, 18, 23, 28} && sig !in {19, 20, 21, 22}
    ensures DefaultStops(sig) <==> sig in {19, 20, 21, 22}
  {
  }

  /** The context that is put aside when a handler is entered. */
  datatype Saved = Saved(ip: int, sp: int, flags: int, blocked: Mask)

  /** What the kernel keeps of a task for its signals; killed is the signal that ended it, or 0. */
  datatype State = State(pending: Mask, blocked: Mask, actions: seq<Action>, active: bool, saved: Saved, regs: Regs, killed: int)

  function Context(regs: Regs, blocked: Mask): Saved {
    Saved(regs.ip, regs.sp, regs.flags, blocked)
  }

  /** The mask while a handler runs. */
  ghost predicate HandlerMask(before: Mask, sig: int, action: Action, after: Mask) {
    forall x :: x in after <==> x in before || x in action.mask || (x == sig && !action.noDefer)
  }

  /** One pass of do_signal: the signals for which the trampoline and the frame can be written to the user stack, and
      the signals that arrive while the task is stopped by each stop signal. */
  datatype Pass = Pass(trampoline: set<int>, frame: set<int>, arrivals: map<int, Mask>)

  predicate CanEnter(pass: Pass, sig: int) {
    sig in pass.trampoline && sig in pass.frame
  }

  function ArrivedAt(pass: Pass, stop: int): Mask {
    if stop in pass.arrivals then pass.arrivals[stop] else {}
  }

  /** x arrived while the task was stopped by a lower signal of the pass. */
  ghost predicate CameBefore(pass: Pass, stopped: set<int>, x: int) {
    exists q :: q in stopped && q < x && x in ArrivedAt(pass, q)
  }

  /** x arrived while the task was stopped by the signal itself or a higher one. */
  ghost predicate CameLate(pass: Pass, stopped: set<int>, x: int) {
    exists q :: q in stopped && q >= x && x in ArrivedAt(pass, q)
  }

  /** x is pending when its turn comes. */
  ghost predicate Present(s: State, pass: Pass, stopped: set<int>, x: int) {
    x in s.pending || CameBefore(pass, stopped, x)
  }

  /** x is taken by the pass when it has treated the signals below n: it is pending at its turn and not blocked, and not a
      caught signal while a handler is in flight. */
  ghost predicate Taken(s: State, pass: Pass, stopped: set<int>, n: int, x: int)
    requires |s.actions| == NSIG
  {
    && 1 <= x < n && x < NSIG && x !in s.blocked && Present(s, pass, stopped, x)
    && !(s.active && s.actions[x].handler.User?)
  }

  predicate StopsTask(s: State, x: int)
    requires |s.actions| == NSIG && 0 <= x < NSIG
  {
    s.actions[x].handler == Default && DefaultStops(x)
  }

  predicate KillsTask(s: State, x: int)
    requires |s.actions| == NSIG && 0 <= x < NSIG
  {
    s.actions[x].handler == Default && DefaultTerminates(x)
  }

  predicate EntersHandler(s: State, pass: Pass, x: int)
    requires |s.actions| == NSIG && 0 <= x < NSIG
  {
    s.actions[x].handler.User? && CanEnter(pass, x)
  }

  /** What a pass over the signals below n does to the masks and actions, with the signals that stopped the task: what is
      pending afterwards is what was pending at its turn and not taken, and what came after its turn. */
  ghost predicate Treated(s: State, pass: Pass, stopped: set<int>, n: int, pending: Mask, actions: seq<Action>) {
    && |s.actions| == NSIG == |actions|
    && (forall x :: x in stopped <==> Taken(s, pass, stopped, n, x) && StopsTask(s, x))
    && (forall x :: x in pending <==> (Present(s, pass, stopped, x) && !Taken(s, pass, stopped, n, x)) || CameLate(pass, stopped, x))
    && (forall x {:trigger actions[x]} | 0 <= x < NSIG ::
          actions[x] == if Taken(s, pass, stopped, n, x) && s.actions[x].handler.User? && s.actions[x].resetHand
                        then s.actions[x].(handler := Default) else s.actions[x])
  }

  /** A whole pass. It ends with the lowest signal that is taken and kills the task or enters its handler. */
  ghost predicate Passed(s: State, pass: Pass, stopped: set<int>, last: int, s': State) {
    && |s.actions| == NSIG && 1 <= last <= NSIG
    && Treated(s, pass, stopped, last + 1, s'.pending, s'.actions)
    && (forall x {:trigger Taken(s, pass, stopped, last, x)} | Taken(s, pass, stopped, last, x) :: !KillsTask(s, x) && !EntersHandler(s, pass, x))
    && (s.active ==> s'.active && s'.saved == s.saved)
    && if last < NSIG && EntersHandler(s, pass, last) then
         && Taken(s, pass, stopped, last + 1, last)
         && s'.active && s'.saved == Context(s.regs, s.blocked) && s'.killed == s.killed
         && HandlerMask(s.blocked, last, s.actions[last], s'.blocked)
         && s'.regs == Regs(s.actions[last].handler.address, (s.regs.sp - 8) % WORD, s.regs.flags, 0)
       else
         && (last < NSIG ==> Taken(s, pass, stopped, last + 1, last) && KillsTask(s, last))
         && s'.killed == (if last < NSIG then last else s.killed)
         && s'.active == s.active && s'.blocked == s.blocked && s'.regs == s.regs
  }

  /** While a handler is in flight no second one starts, and caught signals stay pending. */
  lemma InFlight(s: State, pass: Pass, stopped: set<int>, last: int, s': State)
    requires Passed(s, pass, stopped, last, s') && s.active
    ensures s'.active && s'.saved == s.saved && s'.regs == s.regs && s'.blocked == s.blocked && s'.actions == s.actions
    ensures forall x | x in s.pending && 1 <= x < NSIG && s.actions[x].handler.User? :: x in s'.pending
  {
  }

  /** A caught signal whose turn comes outside a flight, and which does not come again, is lost exactly when its frame or
      the trampoline cannot be written. */
  lemma CaughtIsLostIff(s: State, pass: Pass, stopped: set<int>, last: int, s': State, x: int)
    requires Passed(s, pass, stopped, last, s') && !s.active && 1 <= x <= last && x < NSIG && s.actions[x].handler.User?
    requires x !in s.blocked && Present(s, pass, stopped, x) && !CameLate(pass, stopped, x)
    ensures x !in s'.pending
    ensures s'.active && last == x <==> CanEnter(pass, x)
  {
    assert Taken(s, pass, stopped, last + 1, x);
    assert x < last ==> Taken(s, pass, stopped, last, x);
  }

  /** A signal that arrives while the task is stopped is taken when the task goes on, in the same pass, if its number is
      above the stop signal's; otherwise it is still pending at the end of the pass. */
  lemma StopRescanIff(s: State, pass: Pass, stopped: set<int>, last: int, s': State, stop: int, x: int)
    requires Passed(s, pass, stopped, last, s') && stop in stopped && x in ArrivedAt(pass, stop)
    requires forall q | q in stopped && q != stop :: x !in ArrivedAt(pass, q)
    requires 1 <= x <= last && x < NSIG && x !in s.blocked && !(s.active && s.actions[x].handler.User?)
    ensures x !in s'.pending <==> x > stop
  {
    if x > stop {
      assert CameBefore(pass, stopped, x);
    } else {
      assert CameLate(pass, stopped, x);
    }
  }

  /** SIGKILL sent to a task that SIGSTOP has stopped does not kill it in that pass. */
  lemma KillMissesStoppedTask(s: State, s': State, last: int, stopped: set<int>)
    requires s.pending == {SIGSTOP} && s.blocked == {} && !s.active && s.killed == 0
    requires s.actions == seq(NSIG, _ => Action(Default, {}, false, false))
    requires Passed(s, Pass({}, {}, map[SIGSTOP := {SIGKILL}]), stopped, last, s')
    ensures s'.killed == 0 && s'.pending == {SIGKILL}
  {
    var pass := Pass({}, {}, map[SIGSTOP := {SIGKILL}]);
    StopsAreHigh(s, pass, stopped, last, s');
    forall n, x
      ensures Taken(s, pass, stopped, n, x) <==> x == SIGSTOP && x < n
    {
      assert SIGKILL < 19;
    }
    EndIsTaken(s, pass, stopped, last, s');
    assert last == NSIG;
    assert Taken(s, pass, stopped, last + 1, SIGSTOP) && StopsTask(s, SIGSTOP);
    assert SIGSTOP in stopped && SIGKILL in ArrivedAt(pass, SIGSTOP);
    forall x
      ensures x in s'.pending <==> x == SIGKILL
    {
      assert Present(s, pass, stopped, x) <==> x == SIGSTOP;
    }
  }

  lemma EndIsTaken(s: State, pass: Pass, stopped: set<int>, last: int, s': State)
    requires Passed(s, pass, stopped, last, s')
    ensures last < NSIG ==> Taken(s, pass, stopped, last + 1, last) && (KillsTask(s, last) || EntersHandler(s, pass, last))
  {
  }

  /** A pending signal that is not blocked and that the pass went past neither kills nor can be caught. */
  lemma PassedOver(s: State, pass: Pass, stopped: set<int>, last: int, s': State)
    requires Passed(s, pass, stopped, last, s')
    ensures forall x | 1 <= x < last && x in s.pending && x !in s.blocked ::
              match s.actions[x].handler
              case Default => x in {16, 17, 18, 23, 28} || x in {19, 20, 21, 22}
              case User(_) => s.active || x !in pass.trampoline || x !in pass.frame
              case Ignore => true
  {
    forall x | 1 <= x < last && x in s.pending && x !in s.blocked
      ensures match s.actions[x].handler
              case Default => x in {16, 17, 18, 23, 28} || x in {19, 20, 21, 22}
              case User(_) => s.active || x !in pass.trampoline || x !in pass.frame
              case Ignore => true
    {
      DefaultsAreThree(x);
      assert Present(s, pass, stopped, x);
      assert !(s.active && s.actions[x].handler.User?) ==> Taken(s, pass, stopped, last, x);
    }
  }

  lemma StopsAreHigh(s: State, pass: Pass, stopped: set<int>, last: int, s': State)
    requires Passed(s, pass, stopped, last, s')
    ensures forall q | q in stopped :: 19 <= q <= 22
  {
  }

  /** Between two turns of the loop of do_signal. */
  ghost predicate Passing(s: State, pass: Pass, stopped: set<int>, n: int, now: State) {
    && Treated(s, pass, stopped, n, now.pending, now.actions)
    && (forall x {:trigger Taken(s, pass, stopped, n, x)} | Taken(s, pass, stopped, n, x) :: !KillsTask(s, x) && !EntersHandler(s, pass, x))
    && now.active == s.active && (s.active ==> now.saved == s.saved)
    && now.regs == s.regs && now.blocked == s.blocked && now.killed == s.killed
  }

  lemma NothingTreated(s: State, pass: Pass)
    requires |s.actions| == NSIG
    ensures Passing(s, pass, {}, 1, s)
  {
  }

  lemma AllTreated(s: State, pass: Pass, stopped: set<int>, now: State)
    requires Passing(s, pass, stopped, NSIG, now)
    ensures Passed(s, pass, stopped, NSIG, now)
  {
    assert forall x :: Taken(s, pass, stopped, NSIG + 1, x) <==> Taken(s, pass, stopped, NSIG, x);
  }

  /** The turn of one signal. */
  lemma TurnDone(s: State, pass: Pass, stopped: set<int>, sig: int, pending: Mask, actions: seq<Action>, takes: bool,
                 stopped': set<int>, pending': Mask, actions': seq<Action>)
    requires 1 <= sig < NSIG && Treated(s, pass, stopped, sig, pending, actions)
    requires takes <==> sig in pending && sig !in s.blocked && !(s.active && s.actions[sig].handler.User?)
    requires stopped' == if takes && StopsTask(s, sig) then stopped + {sig} else stopped
    requires pending' == if !takes then pending else if StopsTask(s, sig) then pending - {sig} + ArrivedAt(pass, sig) else pending - {sig}
    requires actions' == if takes && s.actions[sig].handler.User? && s.actions[sig].resetHand
                         then actions[sig := s.actions[sig].(handler := Default)] else actions
    ensures Treated(s, pass, stopped', sig + 1, pending', actions')
    ensures Taken(s, pass, stopped', sig + 1, sig) <==> takes
    ensures forall x :: Taken(s, pass, stopped', sig, x) <==> Taken(s, pass, stopped, sig, x)
  {
    forall x
      ensures x <= sig ==> (CameBefore(pass, stopped', x) <==> CameBefore(pass, stopped, x))
      ensures x > sig ==> (CameBefore(pass, stopped', x) <==>
                             CameBefore(pass, stopped, x) || (sig in stopped' && x in ArrivedAt(pass, sig)))
      ensures CameLate(pass, stopped', x) <==> CameLate(pass, stopped, x) || (sig in stopped' && x <= sig && x in ArrivedAt(pass, sig))
    {
    }
  }

  class Task {
    var pending: Mask
    var blocked: Mask
    var actions: seq<Action>
    var active: bool
    var delivered: int
    var savedIp: int
    var savedSp: int
    var savedFlags: int
    var savedBlocked: Mask
    var regs: Regs
    /** The signal that ended the task, or 0. */
    var killed: int

    ghost predicate Valid()
      reads this`actions
    {
      |actions| == NSIG
    }

    ghost function Now(): State
      reads this
    {
      State(pending, blocked, actions, active, Saved(savedIp, savedSp, savedFlags, savedBlocked), regs, killed)
    }

    constructor (regs: Regs)
      ensures Valid() && !active && pending == {} && blocked == {} && this.regs == regs && killed == 0
    {
      pending, blocked, active, delivered, killed := {}, {}, false, 0, 0;
      actions := seq(NSIG, _ => Action(Default, {}, false, false));
      savedIp, savedSp, savedFlags, savedBlocked := 0, 0, 0, {};
      this.regs := regs;
    }

    /** send_signal: the pending bit. */
    method Send(sig: int) returns (ok: bool)
      modifies this`pending
      ensures (ok <==> 1 <= sig < NSIG) && pending == if ok then old(pending) + {sig} else old(pending)
    {
      ok := 1 <= sig < NSIG;
      if ok {
        pending := pending + {sig};
      }
    }

    /** sys_sigprocmask with SIG_BLOCK, SIG_UNBLOCK or SIG_SETMASK. */
    method Sigprocmask(how: int, mask: Mask) returns (ok: bool)
      modifies this`blocked
      ensures ok <==> 0 <= how <= 2
      ensures forall x :: x in blocked <==> if how == 0 then x in old(blocked) || (x in mask && x != 9 && x != 19)
                            else if how == 1 then x in old(blocked) && (x !in mask || x == 9 || x == 19)
                            else if how == 2 then x in mask && x != 9 && x != 19 else x in old(blocked)
    {
      var clean := mask - UNBLOCKABLE;
      ok := true;
      if how == 0 {
        blocked := blocked + clean;
      } else if how == 1 {
        blocked := blocked - clean;
      } else if how == 2 {
        blocked := clean;
      } else {
        ok := false;
      }
    }

    /** sys_sigaction */
    method Sigaction(sig: int, action: Action) returns (ok: bool)
      requires Valid()
      modifies this`actions
      ensures Valid() && (ok <==> 1 <= sig < NSIG && sig !in UNBLOCKABLE)
      ensures actions == if ok then old(actions)[sig := action] else old(actions)
    {
      ok := 1 <= sig < NSIG && sig != SIGKILL && sig != SIGSTOP;
      if ok {
        actions := actions[sig := action];
      }
    }

    /** sys_sigsuspend: the mask is replaced while the task sleeps, when signals can arrive, and put back before the return. */
    method Sigsuspend(mask: Mask, arrivals: Mask) returns (slept: bool)
      modifies this`blocked, this`pending
      ensures blocked == old(blocked)
      ensures slept <==> old(pending) <= mask - UNBLOCKABLE
      ensures pending == if slept then old(pending) + arrivals else old(pending)
    {
      var before := blocked;
      blocked := mask - UNBLOCKABLE;
      slept := pending - blocked == {};
      assert forall s :: s in pending - blocked <==> s in pending && s !in blocked;
      assert slept <==> pending <= blocked;
      if slept {
        pending := pending + arrivals;
      }
      blocked := before;
    }

    /** sys_sigreturn: the context that was put aside comes back. */
    method Sigreturn() returns (ok: bool)
      modifies this`active, this`blocked, this`regs
      ensures ok == old(active) && !active
      ensures regs == if ok then Regs(savedIp, savedSp, savedFlags, 0) else old(regs)
      ensures blocked == if ok then savedBlocked else old(blocked)
    {
      ok := active;
      if active {
        active := false;
        blocked := savedBlocked;
        regs := Regs(savedIp, savedSp, savedFlags, 0);
      }
    }

    /** Saving the context and entering the handler, the end of do_signal for a caught signal. trampoline and frame say
        whether the two copies to the user stack succeed. */
    method Deliver(sig: int, trampoline: bool, frame: bool) returns (ok: bool)
      requires Valid() && !active && 1 <= sig < NSIG && actions[sig].handler.User?
      modifies this
      ensures Valid() && pending == old(pending) && killed == old(killed) && (ok <==> trampoline && frame)
      ensures var was := old(actions)[sig]; actions == old(actions)[sig := if was.resetHand then was.(handler := Default) else was]
      ensures active == ok
      ensures if ok then
                && Now().saved == Context(old(regs), old(blocked)) && delivered == sig
                && HandlerMask(old(blocked), sig, old(actions)[sig], blocked)
                && regs == Regs(old(actions)[sig].handler.address, (old(regs).sp - 8) % WORD, old(regs).flags, 0)
              else regs == old(regs) && blocked == old(blocked)
    {
      ok := false;
      var action := actions[sig];
      if action.resetHand {
        actions := actions[sig := action.(handler := Default)];
      }
      if trampoline {
        var oldBlocked := blocked;
        blocked := blocked + action.mask;
        if !action.noDefer {
          blocked := blocked + {sig};
        }
        savedIp, savedSp, savedFlags, savedBlocked := regs.ip, regs.sp, regs.flags, oldBlocked;
        active, delivered := true, sig;
        var newSp := (regs.sp - 8) % WORD;
        if !frame {
          active, blocked := false, oldBlocked;
        } else {
          regs := Regs(action.handler.address, newSp, regs.flags, 0);
          ok := true;
        }
      }
    }

    /** One turn of the loop of do_signal; it may be the last. */
    method TreatOne(pass: Pass, sig: int, ghost s: State, ghost stopped: set<int>) returns (ghost stopped': set<int>, ended: bool)
      requires Valid() && 1 <= sig < NSIG && Passing(s, pass, stopped, sig, Now()) && s.killed == 0
      modifies this
      ensures Valid() && if ended then Passed(s, pass, stopped', sig, Now()) else Passing(s, pass, stopped', sig + 1, Now())
    {
      stopped', ended := stopped, false;
      ghost var p, a := pending, actions;
      ghost var takes := sig in pending && sig !in blocked && !(active && s.actions[sig].handler.User?);
      if sig in pending && sig !in blocked {
        pending := pending - {sig};
        match actions[sig].handler
        case Ignore =>
        case Default =>
          if DefaultTerminates(sig) {
            killed, ended := sig, true;
          } else if DefaultStops(sig) {
            // Other tasks run until SIGCONT or a fatal signal; signals can arrive.
            pending := pending + ArrivedAt(pass, sig);
            stopped' := stopped + {sig};
          }
        case User(_) =>
          if active {
            pending := pending + {sig};
          } else {
            ended := Deliver(sig, sig in pass.trampoline, sig in pass.frame);
          }
      }
      TurnDone(s, pass, stopped, sig, p, a, takes, stopped', pending, actions);
    }

    /** do_signal on the way back to user mode. */
    method DoSignal(pass: Pass) returns (ghost stopped: set<int>, ghost last: int)
      requires Valid() && killed == 0
      modifies this
      ensures Valid() && Passed(old(Now()), pass, stopped, last, Now())
      ensures last < NSIG ==> last !in old(blocked) && match old(actions)[last].handler
                                                       case Default => killed == last && last !in {16, 17, 18, 23, 28} && last !in {19, 20, 21, 22}
                                                       case User(address) => active && regs.ip == address && killed == 0
                                                       case Ignore => false
      ensures forall x | 1 <= x < last && x in old(pending) && x !in old(blocked) ::
                match old(actions)[x].handler
                case Default => x in {16, 17, 18, 23, 28} || x in {19, 20, 21, 22}
                case User(_) => old(active) || x !in pass.trampoline || x !in pass.frame
                case Ignore => true
    {
      ghost var s := Now();
      stopped := {};
      var sig := 1;
      NothingTreated(s, pass);
      while sig < NSIG
        invariant 1 <= sig <= NSIG && Valid() && Passing(s, pass, stopped, sig, Now())
      {
        last := sig;
        var ended;
        stopped, ended := TreatOne(pass, sig, s, stopped);
        if ended {
          PassedOver(s, pass, stopped, last, Now());
          return;
        }
        sig := sig + 1;
      }
      last := NSIG;
      AllTreated(s, pass, stopped, Now());
      PassedOver(s, pass, stopped, last, Now());
    }
  }

  /** What happens to a task. */
  datatype Event = Signal(sig: int) | Procmask(how: int, mask: Mask) | SetAction(sig: int, action: Action)
                 | Suspend(mask: Mask, arrivals: Mask) | Return | ToUser(pass: Pass) | Compute(regs: Regs)

  /** What an event makes of a task; nothing happens to a task that was killed. */
  ghost predicate Next(s: State, e: Event, s': State) {
    && |s.actions| == NSIG
    && if s.killed != 0 then s' == s
       else match e
       case Signal(sig) => s' == s.(pending := if 1 <= sig < NSIG then s.pending + {sig} else s.pending)
       case Procmask(how, mask) =>
         && s' == s.(blocked := s'.blocked)
         && forall x :: x in s'.blocked <==> if how == 0 then x in s.blocked || (x in mask && x != 9 && x != 19)
                            else if how == 1 then x in s.blocked && (x !in mask || x == 9 || x == 19)
                            else if how == 2 then x in mask && x != 9 && x != 19 else x in s.blocked
       case SetAction(sig, action) =>
         s' == s.(actions := if 1 <= sig < NSIG && sig !in UNBLOCKABLE then s.actions[sig := action] else s.actions)
       case Suspend(mask, arrivals) => s' == s.(pending := if s.pending <= mask - UNBLOCKABLE then s.pending + arrivals else s.pending)
       case Compute(regs) => s' == s.(regs := regs)
       case Return =>
         s' == if s.active then s.(active := false, blocked := s.saved.blocked, regs := Regs(s.saved.ip, s.saved.sp, s.saved.flags, 0))
               else s
       case ToUser(pass) => exists stopped, last :: Passed(s, pass, stopped, last, s')
  }

  /** sigsuspend puts the old mask back before the signal that ended the sleep is handled: the pass after it takes the signal
      if and only if the old mask does not block it, whatever the temporary mask was. */
  lemma SuspendTakesIff(s: State, mask: Mask, arrivals: Mask, s1: State, pass: Pass, stopped: set<int>, last: int, s2: State, x: int)
    requires s.killed == 0 && Next(s, Suspend(mask, arrivals), s1) && Passed(s1, pass, stopped, last, s2)
    requires x in s1.pending && 1 <= x <= last && x < NSIG && !CameLate(pass, stopped, x)
    requires !(s.active && s.actions[x].handler.User?)
    ensures x !in s2.pending <==> x !in s.blocked
  {
    assert Present(s1, pass, stopped, x);
  }

  /** A blocked SIGTERM that arrives while the temporary mask lets it through wakes the task and is still pending then. */
  lemma SuspendMissesSignal(s: State, s1: State, pass: Pass, stopped: set<int>, last: int, s2: State)
    requires s.killed == 0 && s.pending == {} && 15 in s.blocked && s.actions == seq(NSIG, _ => Action(Default, {}, false, false))
    requires Next(s, Suspend({}, {15}), s1) && Passed(s1, pass, stopped, last, s2)
    ensures 15 in s2.pending && s2.killed != 15
  {
    assert Present(s1, pass, stopped, 15);
    EndIsTaken(s1, pass, stopped, last, s2);
  }

  /** The handler that runs in state i was entered by event d: none ran before, and since then this one does. */
  ghost predicate EnteredAt(states: seq<State>, events: seq<Event>, d: int, i: int) {
    && 0 <= d < i < |states| && d < |events| && events[d].ToUser? && !states[d].active && states[d].killed == 0
    && forall j {:trigger states[j]} | d < j <= i :: states[j].active && states[j].saved == Context(states[d].regs, states[d].blocked)
  }

  lemma StepOf(states: seq<State>, events: seq<Event>, i: nat)
    requires IsRun(Next, states, events) && i < |events|
    ensures |states| == |events| + 1 && Next(states[i], events[i], states[i + 1])
  {
    assert IsStep(Next, states, events, i);
  }

  /** What a step does to a flight: one begins only with a pass outside a flight, and otherwise goes on as it is. */
  lemma FlightStep(s: State, e: Event, s': State)
    requires Next(s, e, s') && s'.active
    ensures if s.active then s'.saved == s.saved
            else e.ToUser? && s.killed == 0 && s'.saved == Context(s.regs, s.blocked)
  {
    if e.ToUser? && s.killed == 0 {
      var stopped, last :| Passed(s, e.pass, stopped, last, s');
      if s.active {
        InFlight(s, e.pass, stopped, last, s');
      }
    }
  }

  /** Every handler that runs was entered by some pass. */
  lemma {:induction false} FlightBegan(states: seq<State>, events: seq<Event>, i: nat) returns (d: int)
    requires IsRun(Next, states, events) && !states[0].active && i < |states| && states[i].active
    ensures EnteredAt(states, events, d, i)
  {
    StepOf(states, events, i - 1);
    FlightStep(states[i - 1], events[i - 1], states[i]);
    d := i - 1;
    if states[i - 1].active {
      d := FlightBegan(states, events, i - 1);
    }
  }

  /** A sigreturn in state i restores the instruction and stack pointers, the flags and the mask of the matching delivery. */
  ghost predicate Restores(states: seq<State>, events: seq<Event>, i: int)
    requires 0 <= i < |events| && i + 1 < |states|
  {
    exists d {:trigger EnteredAt(states, events, d, i)} :: EnteredAt(states, events, d, i)
      && states[i + 1].regs == states[d].regs.(ret := 0) && states[i + 1].blocked == states[d].blocked && !states[i + 1].active
  }

  lemma ReturnRestores(states: seq<State>, events: seq<Event>, i: nat)
    requires IsRun(Next, states, events) && !states[0].active && i < |events|
    requires events[i].Return? && states[i].active && states[i].killed == 0
    ensures Restores(states, events, i)
  {
    StepOf(states, events, i);
    var d := FlightBegan(states, events, i);
    assert states[i].saved == Context(states[d].regs, states[d].blocked);
  }

  /** One event. */
  method Do(t: Task, e: Event)
    requires t.Valid()
    modifies t
    ensures t.Valid() && Next(old(t.Now()), e, t.Now())
  {
    if t.killed != 0 {
      return;
    }
    match e
    case Signal(sig) =>
      var ok := t.Send(sig);
    case Procmask(how, mask) =>
      var ok := t.Sigprocmask(how, mask);
    case SetAction(sig, action) =>
      var ok := t.Sigaction(sig, action);
    case Suspend(mask, arrivals) =>
      var slept := t.Sigsuspend(mask, arrivals);
    case Compute(regs) =>
      t.regs := regs;
    case Return =>
      var ok := t.Sigreturn();
    case ToUser(pass) =>
      ghost var stopped, last := t.DoSignal(pass);
  }

  /** Every run of a task, by its states: whatever happens to masks, actions and registers in between, each sigreturn
      restores the context and the mask of the matching delivery. */
  method RunEvents(t: Task, events: seq<Event>) returns (ghost states: seq<State>)
    requires t.Valid() && !t.active
    modifies t
    ensures t.Valid() && IsRun(Next, states, events) && states[0] == old(t.Now()) && states[|events|] == t.Now()
    ensures forall i | 0 <= i < |events| && events[i].Return? && states[i].active && states[i].killed == 0 :: Restores(states, events, i)
  {
    states := [t.Now()];
    for i := 0 to |events|
      invariant t.Valid() && IsRun(Next, states, events[..i]) && states[0] == old(t.Now()) && states[i] == t.Now()
    {
      Do(t, events[i]);
      assert events[..i + 1] == events[..i] + [events[i]];
      ExtendRun(Next, states, events[..i], events[i], t.Now());
      states := states + [t.Now()];
    }
    assert events[..|events|] == events;
    forall i | 0 <= i < |events| && events[i].Return? && states[i].active && states[i].killed == 0
      ensures Restores(states, events, i)
    {
      ReturnRestores(states, events, i);
    }
  }
}
