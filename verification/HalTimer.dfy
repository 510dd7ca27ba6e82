/** The SAMD21 software timer: a queue of deadlines multiplexed on one 16-bit hardware
    counter with an overflow flag and one compare channel. Hardware time passes between any
    two register accesses (`Elapse`); callbacks run inside the queue check and may start and
    stop timers. */
module HalTimer {
  import opened WrapTime
  import opened TimerService
  import opened TimerCalls
  import opened TimerState
  import TailQueue

  class Timer {
    var hw: Hw
    var cpu: Cpu
    // struct samd21_hal_timer: the counter and the queue, which a walk sees as `q`; and of the
    // timers, the expiry fields and the set of those whose tqe_prev is non-null.
    var cntr: nat
    var tq: TailQueue.Queue
    var q: seq<Entry>
    var expiry: map<TimerId, nat>
    var linked: set<TimerId>
    const callbacks: set<TimerId>
    // How long a queued timer may be overdue, at most.
    const slack: Slack
    // Overflows added to `cntr`, the event history and the timers pending after it, and the
    // instant of the last 32-bit read.
    ghost var epoch: nat
    ghost var log: seq<Event>
    ghost var armed: Pendings
    ghost var lastRead: nat

    constructor (callbacks: set<TimerId>, slack: Slack)
      ensures Valid() && NoLostWakeup() && log == [] && cpu.irqOn && cpu.depth == 0 && hw.now == 0
      ensures this.callbacks == callbacks && this.slack == slack
    {
      hw := Hw(0, false, false, false, 0, false);
      cpu := Cpu(0, false, true);
      cntr, tq, q, expiry, linked := 0, TailQueue.EMPTY, [], map[], {};
      epoch, log, armed, lastRead := 0, [], map[], 0;
      this.callbacks, this.slack := callbacks, slack;
    }

    ghost function Cfg(): Setting { Setting(callbacks, slack) }

    ghost function Now(): Moment reads this { Moment(hw.pend, epoch, hw.now, log) }

    ghost function Seen(): Snap reads this { Snap(hw.now, IrqRequested(hw), log) }

    ghost predicate TimeOk() reads this {
      EpochOk(hw, epoch) && Timely(hw.now, armed, slack)
    }

    ghost predicate CounterOk() reads this {
      TimeOk() && cntr == Wrap(WRAP16 * epoch) && lastRead <= hw.now
    }

    ghost predicate QueueOk() reads this {
      History(log, armed) && Represents(q, armed) && linked == armed.Keys && Threaded(tq, expiry, q)
    }

    ghost predicate Valid() reads this {
      CounterOk() && QueueOk() && Masked(cpu)
    }

    ghost predicate NoLostWakeup() reads this {
      q != [] ==> q[0].id in armed && Woken(hw, epoch, armed[q[0].id].due)
    }

    /** The compare channel is set for the head of the queue, and not flagged before its deadline; or
        it is off. */
    ghost predicate HeadArmed() reads this {
      if q == [] then !hw.mc0En
      else
        && q[0].id in armed && Armed(hw, epoch, armed[q[0].id].due)
        && (hw.mc0En && hw.mc0 ==> armed[q[0].id].due <= hw.now)
    }

    /** Whatever is due has its interrupt requested: the head is the earliest pending timer,
        so no pending timer passes its deadline unnoticed. */
    lemma DueMeansRequested(id: TimerId)
      requires Valid() && NoLostWakeup()
      requires id in armed && armed[id].due <= hw.now
      ensures IrqRequested(hw)
    {
      assert Queued(q, id);
      FirstIsEarliest(q, armed);
      WokenByDeadline(hw, epoch, armed[q[0].id].due);
    }

    // ---- Hardware ----

    /** Some time passes. The environment is only trusted not to wrap the count while the
        overflow flag is still set, and not to leave a queued timer overdue for `slack` ticks. */
    method Elapse(h: Hw, ghost e: nat) returns (h': Hw)
      requires EpochOk(h, e) && Timely(h.now, armed, slack) && Represents(q, armed)
      ensures Elapsed(h, h', e) && Timely(h'.now, armed, slack)
    {
      var n: nat :| true;
      h' := h;
      for i := 0 to n
        invariant Elapsed(h, h', e) && Timely(h'.now, armed, slack)
      {
        var inTime := CanAdvance(h');
        if inTime && !(h'.ovf && (h'.now + 1) % WRAP16 == 0) {
          TickKeeps(h', e);
          h' := Tick(h');
          if Count(h') == h'.cc0 { MatchTick(h.now, h'.now, h.cc0); }
        }
      }
    }

    /** Whether one more tick keeps every queued timer less than `slack` overdue. */
    method CanAdvance(h: Hw) returns (ok: bool)
      requires Timely(h.now, armed, slack) && Represents(q, armed)
      ensures ok ==> Timely(h.now + 1, armed, slack)
    {
      ok := true;
      for i := 0 to |q|
        invariant ok ==> forall j :: 0 <= j < i ==> h.now + 1 < armed[q[j].id].due + slack
      {
        SDiffIsTrueDifference(h.now + 1, armed[q[i].id].due);
        if SDiff(Wrap(h.now + 1), q[i].expiry) >= slack { ok := false; }
      }
      if ok {
        forall id | id in armed ensures InWindow(h.now + 1, armed[id].due, slack) {
          assert Queued(q, id);
        }
      }
    }

    // ---- Driver ----

    /** The register accesses of the 32-bit read, on a counter that lags `lag` overflows behind
        those cleared. `t` is the instant it tells, `e` the overflows cleared afterwards. */
    method ReadRegisters(h0: Hw, c0: nat, ghost e0: nat, ghost lag: nat)
      returns (h: Hw, c: nat, tcntr: nat, ghost t: nat, ghost e: nat)
      requires EpochOk(h0, e0) && Timely(h0.now, armed, slack) && Represents(q, armed)
      requires lag <= e0 && c0 == Wrap(WRAP16 * (e0 - lag))
      ensures EpochOk(h, e) && Timely(h.now, armed, slack) && (e == e0 || e == e0 + 1)
      ensures c == Wrap(WRAP16 * (e - lag))
      ensures h0.now <= t <= h.now && tcntr == Wrap(t - WRAP16 * lag)
      ensures h0.ovf ==> e == e0 + 1
      ensures h.now == h0.now ==> (tcntr, h, c) == ReadAtOnce(h0, c0)
      ensures h.pend <==> h0.pend || e > e0
      ensures forall d :: Woken(h0, e0, d) ==> Woken(h, e, d)
    {
      h, c, e := h0, c0, e0;
      h := Elapse(h, e);
      tcntr := c;
      h := Elapse(h, e);
      var low := Count(h);
      t := h.now;
      h := Elapse(h, e);
      if h.ovf {
        WrapAdd(WRAP16 * (e - lag), WRAP16);
        tcntr := Wrap(tcntr + WRAP16);
        c := tcntr;
        h := Elapse(h, e);
        low := Count(h);
        t := h.now;
        h := Elapse(h, e);
        h, e := h.(ovf := false), e + 1;
        h := h.(pend := true);
      }
      EpochPlusLow(e - lag, low);
      tcntr := tcntr + low;
    }

    /** The 32-bit read: linearizable, whatever ticks fall between its register accesses. */
    method ReadBsp() returns (tcntr: nat, ghost t: nat)
      requires Valid()
      modifies `hw, `cpu, `cntr, `epoch, `lastRead
      ensures Valid()
      ensures old(hw.now) <= t <= hw.now && tcntr == Wrap(t)
      ensures old(lastRead) <= t == lastRead
      ensures forall d :: Woken(old(hw), old(epoch), d) ==> Woken(hw, epoch, d)
      ensures epoch >= old(epoch) && (hw.pend <==> old(hw.pend) || epoch > old(epoch))
      ensures Balanced(old(cpu), cpu)
    {
      cpu := Enter(cpu);
      var h, c;
      ghost var e;
      h, c, tcntr, t, e := ReadRegisters(hw, cntr, epoch, 0);
      hw, cntr, epoch, lastRead := h, c, e, t;
      cpu := Leave(cpu);
    }

    /** Program the wake-up for the queued timer `id`. */
    method SetOcmp(expiry: nat, ghost id: TimerId) returns (h: Hw)
      requires CounterOk() && Represents(q, armed) && !cpu.irqOn
      requires id in armed && expiry == Wrap(armed[id].due)
      ensures EpochOk(h, epoch) && Timely(h.now, armed, slack) && h.now >= hw.now
      ensures Woken(h, epoch, armed[id].due) && Armed(h, epoch, armed[id].due)
      ensures hw.pend || armed[id].due / WRAP16 < epoch || armed[id].due / WRAP16 >= epoch + FAR ==> h.pend
      ensures h.pend ==> hw.pend || Urgent(armed[id].due, h.now, epoch)
      ensures h.mc0En && h.mc0 ==> armed[id].due <= h.now
    {
      ghost var due := armed[id].due;
      h := Elapse(hw, epoch);
      h := h.(mc0En := false);
      h := Elapse(h, epoch);
      EpochDelta(h, epoch, due, slack);
      var delta := SDiff(expiry - expiry % WRAP16, cntr);
      if delta < 0 {
        EpochsApart(h.now, due);
        h := h.(pend := true);
      } else if delta == 0 {
        h := Program(h, expiry % WRAP16, due);
      }
    }

    /** A deadline in the counter's epoch: set and enable the compare channel; the interrupt is forced if
        the count is past it already. */
    method Program(h0: Hw, expiry16: nat, ghost due: nat) returns (h: Hw)
      requires EpochOk(h0, epoch) && Timely(h0.now, armed, slack) && Represents(q, armed)
      requires epoch == due / WRAP16 && expiry16 == due % WRAP16
      ensures EpochOk(h, epoch) && Timely(h.now, armed, slack) && h.now >= h0.now
      ensures Woken(h, epoch, due) && h.mc0En && h.cc0 == expiry16
      ensures h0.pend ==> h.pend
      ensures (h.pend ==> h0.pend || due <= h.now) && (h.mc0 ==> due <= h.now)
    {
      h := h0.(cc0 := expiry16);
      h := Elapse(h, epoch);
      h := h.(mc0 := false);
      MatchReaches(h.now, due);
      h := Elapse(h, epoch);
      MatchReaches(h.now, due);
      h := h.(mc0En := true);
      h := Elapse(h, epoch);
      EpochsApart(h.now, due);
      if Count(h) >= expiry16 {
        h := h.(pend := true);
      }
    }

    /** Point the compare channel at the head of the queue, or switch it off. */
    method Rearm()
      requires CounterOk() && QueueOk() && !cpu.irqOn
      modifies `hw
      ensures CounterOk() && QueueOk() && NoLostWakeup() && hw.now >= old(hw.now) && HeadArmed()
      ensures hw.pend ==> old(hw.pend) || (q != [] && Urgent(armed[q[0].id].due, hw.now, epoch))
      ensures old(hw.pend) ==> hw.pend
      ensures Pends(old(Now()), Now())
    {
      if q != [] {
        ArmHead(q[0].expiry);
      } else {
        hw := hw.(mc0En := false);
      }
    }

    /** Program the wake-up for the head of the queue. */
    method ArmHead(tick: nat)
      requires CounterOk() && QueueOk() && !cpu.irqOn && q != [] && tick == q[0].expiry
      modifies `hw
      ensures CounterOk() && QueueOk() && NoLostWakeup() && hw.now >= old(hw.now) && HeadArmed()
      ensures hw.pend ==> old(hw.pend) || Urgent(armed[q[0].id].due, hw.now, epoch)
      ensures old(hw.pend) ==> hw.pend
      ensures Pends(old(Now()), Now())
    {
      hw := SetOcmp(tick, q[0].id);
      if hw.pend && !old(hw.pend) {
        UrgentNow(log, q[0].id, |log|, hw.now, epoch);
      }
    }

    /** The walk over the queue: the first entry that expires later than `tick`. */
    method FindSlot(tick: nat, ghost due: nat) returns (k: nat)
      requires Represents(q, armed) && Timely(hw.now, armed, slack)
      requires InWindow(hw.now, due, slack) && tick == Wrap(due)
      ensures k <= |q|
      ensures forall i :: 0 <= i < k ==> armed[q[i].id].due <= due
      ensures k < |q| ==> due < armed[q[k].id].due
    {
      k := 0;
      while k < |q|
        invariant 0 <= k <= |q|
        invariant forall i :: 0 <= i < k ==> armed[q[i].id].due <= due
      {
        SDiffIsTrueDifference(due, armed[q[k].id].due);
        if SDiff(tick, q[k].expiry) < 0 {
          return;
        }
        k := k + 1;
      }
    }

    method IndexOf(id: TimerId) returns (k: nat)
      requires Represents(q, armed) && id in armed
      ensures k < |q| && q[k].id == id
    {
      assert Queued(q, id);
      k := 0;
      while q[k].id != id
        invariant k < |q|
        invariant forall i :: 0 <= i < k ==> q[i].id != id
        decreases |q| - k
      {
        k := k + 1;
      }
    }

    /** The body of the start's critical section. */
    method Insert(id: TimerId, tick: nat, ghost due: nat)
      requires CounterOk() && QueueOk() && !cpu.irqOn
      requires InWindow(hw.now, due, slack) && tick == Wrap(due) && id !in linked
      requires id in expiry && expiry[id] == tick
      modifies `hw, `tq, `q, `linked, `log, `armed
      ensures CounterOk() && QueueOk() && hw.now >= old(hw.now)
      ensures log == old(log) + [Started(id, due)] && armed == old(armed)[id := Deadline(due, |old(log)|)]
      ensures old(NoLostWakeup()) ==> NoLostWakeup()
      ensures q != [] && (q[0].id == id ==> HeadArmed()) && (q[0].id != id ==> hw == old(hw))
      ensures Pends(old(Now()), Now())
    {
      Link(id, tick, due);
      if q[0].id == id {
        ghost var m := Now();
        ArmHead(tick);
        PendsOn(old(Now()), m, Now());
      } else {
        assert old(NoLostWakeup()) ==> NoLostWakeup();
      }
    }

    /** The walk and the insertion. */
    method Link(id: TimerId, tick: nat, ghost due: nat)
      requires CounterOk() && QueueOk()
      requires InWindow(hw.now, due, slack) && tick == Wrap(due) && id !in linked
      requires id in expiry && expiry[id] == tick
      modifies `tq, `q, `linked, `log, `armed
      ensures CounterOk() && QueueOk() && Pends(old(Now()), Now())
      ensures log == old(log) + [Started(id, due)] && armed == old(armed)[id := Deadline(due, |old(log)|)]
      ensures q != [] && q[0].id in armed
      ensures if q[0].id == id then q[0].expiry == tick else old(q) != [] && q[0] == old(q[0])
    {
      var k := FindSlot(tick, due);
      Enqueue(id, tick, due, k);
      TimelyMore(hw.now, old(armed), slack, id, armed[id]);
    }

    /** Queue a timer at an absolute tick. `due` is the true time the caller means by `tick`. */
    method StartAt(timer: TimerRef, tick: nat, ghost due: nat) returns (rc: Rc)
      requires Valid() && InWindow(hw.now, due, slack) && tick == Wrap(due)
      modifies `hw, `cpu, `tq, `q, `expiry, `linked, `log, `armed
      ensures Valid() && hw.now >= old(hw.now)
      ensures rc == Einval <==> timer.Null? || timer.id in old(linked) || timer.id !in callbacks
      ensures log == if rc == Ok then old(log) + [Started(timer.id, due)] else old(log)
      ensures old(NoLostWakeup()) ==> NoLostWakeup()
      ensures Balanced(old(cpu), cpu) && Pends(old(Now()), Now())
    {
      if timer.Null? || timer.id in linked || timer.id !in callbacks {
        return Einval;
      }
      expiry := expiry[timer.id := tick];
      cpu := Enter(cpu);
      Insert(timer.id, tick, due);
      cpu := Leave(cpu);
      rc := Ok;
    }

    /** TAILQ insertion at position `k`. */
    method Enqueue(id: TimerId, tick: nat, ghost due: nat, k: nat)
      requires QueueOk() && tick == Wrap(due) && id in expiry && expiry[id] == tick
      requires id !in linked && k <= |q|
      requires forall i :: 0 <= i < k ==> armed[q[i].id].due <= due
      requires k < |q| ==> due < armed[q[k].id].due
      modifies `tq, `q, `linked, `log, `armed
      ensures QueueOk() && log == old(log) + [Started(id, due)]
      ensures q == old(q)[..k] + [Entry(id, tick)] + old(q)[k..]
      ensures armed == old(armed)[id := Deadline(due, |old(log)|)]
      ensures q[0] == if k == 0 then Entry(id, tick) else old(q[0])
      ensures k > 0 ==> q[0].id in armed && q[0].id != id
    {
      ghost var d := Deadline(due, |log|);
      StartKeepsHistory(log, armed, q, k, id, d);
      InsertThreads(tq, expiry, q, armed, k, Entry(id, tick));
      tq := TailQueue.InsertAt(tq, Ids(q), k, id);
      q := q[..k] + [Entry(id, tick)] + q[k..];
      assert armed[id := d].Keys == armed.Keys + {id};
      linked := linked + {id};
      log := log + [Started(id, due)];
      armed := armed[id := d];
    }

    /** TAILQ removal of the entry at position `k`, recorded as event `e`. */
    method Dequeue(k: nat, ghost e: Event)
      requires QueueOk() && k < |q| && e.id == q[k].id && !e.Started?
      requires LegalEvent(armed, e)
      modifies `tq, `q, `linked, `log, `armed
      ensures QueueOk() && log == old(log) + [e]
      ensures q == old(q)[..k] + old(q)[k+1..]
      ensures armed == old(armed) - {e.id}
    {
      RemoveKeepsOrder(q, armed, k);
      RemoveThreads(tq, expiry, q, armed, k);
      tq := TailQueue.Remove(tq, q[k].id);
      LegalAppend(log, e);
      linked := linked - {q[k].id};
      q := q[..k] + q[k+1..];
      log := log + [e];
      armed := armed - {e.id};
    }

    /** The body of the stop's critical section. */
    method Remove(id: TimerId)
      requires CounterOk() && QueueOk() && !cpu.irqOn && id in linked
      modifies `hw, `tq, `q, `linked, `log, `armed
      ensures CounterOk() && QueueOk() && hw.now >= old(hw.now)
      ensures log == old(log) + [Stopped(id)]
      ensures old(NoLostWakeup()) ==> NoLostWakeup()
      ensures old(q) != [] && if old(q[0].id) == id then HeadArmed() else hw == old(hw)
      ensures Pends(old(Now()), Now())
    {
      var k := IndexOf(id);
      Dequeue(k, Stopped(id));
      if k == 0 {
        ghost var m := Now();
        Rearm();
        PendsOn(old(Now()), m, Now());
      }
    }

    method Stop(timer: TimerRef) returns (rc: Rc)
      requires Valid()
      modifies `hw, `cpu, `tq, `q, `expiry, `linked, `log, `armed
      ensures Valid() && hw.now >= old(hw.now)
      ensures rc == Einval <==> timer.Null?
      ensures log == if timer.Ref? && timer.id in old(linked) then old(log) + [Stopped(timer.id)] else old(log)
      ensures old(NoLostWakeup()) ==> NoLostWakeup()
      ensures Balanced(old(cpu), cpu) && Pends(old(Now()), Now())
    {
      if timer.Null? {
        return Einval;
      }
      cpu := Enter(cpu);
      if timer.id in linked {
        Remove(timer.id);
      }
      cpu := Leave(cpu);
      rc := Ok;
    }

    /** One use of the timer API; start requests outside the window are left out. */
    method Act(a: Action)
      requires Valid()
      modifies `hw, `cpu, `tq, `q, `expiry, `linked, `log, `armed
      ensures Valid() && log == old(log) + Effect(a, Pending(old(log)), old(hw.now), Cfg())
      ensures old(NoLostWakeup()) ==> NoLostWakeup()
      ensures Balanced(old(cpu), cpu) && Pends(old(Now()), Now())
    {
      var rc;
      match a {
        case DoStart(timer, due) =>
          if InWindow(hw.now, due, slack) {
            rc := StartAt(timer, Wrap(due), due);
          }
        case DoStop(timer) =>
          rc := Stop(timer);
      }
    }

    /** A callback: its actions one after the other, made at `times`. */
    method Perform(actions: seq<Action>) returns (ghost times: seq<nat>)
      requires Valid()
      modifies `hw, `cpu, `tq, `q, `expiry, `linked, `log, `armed
      ensures Valid() && |times| == |actions| && Within(times, old(hw.now), hw.now)
      ensures log == AfterActions(old(log), actions, times, Cfg()) && (actions == [] ==> q == old(q))
      ensures old(NoLostWakeup()) ==> NoLostWakeup()
      ensures Balanced(old(cpu), cpu) && Pends(old(Now()), Now())
    {
      times := [];
      for i := 0 to |actions|
        invariant Valid() && |times| == i && Within(times, old(hw.now), hw.now)
        invariant log == AfterActions(old(log), actions[..i], times, Cfg()) && (i == 0 ==> q == old(q))
        invariant old(NoLostWakeup()) ==> NoLostWakeup()
        invariant Balanced(old(cpu), cpu) && Pends(old(Now()), Now())
      {
        ghost var m := Now();
        ActionsMore(old(log), actions, times, Cfg(), i, m.now);
        Act(actions[i]);
        PendsOn(old(Now()), m, Now());
        WithinMore(times, old(hw.now), m.now, m.now, hw.now);
        times := times + [m.now];
      }
      assert actions[..|actions|] == actions;
    }

    /** Read the clock and, if the head of the queue is due, take it off and record its firing. */
    method FireHead() returns (fired: bool)
      requires Valid() && q != []
      modifies `hw, `cpu, `cntr, `epoch, `lastRead, `tq, `q, `linked, `log, `armed
      ensures Valid() && old(hw.now) <= lastRead <= hw.now
      ensures Balanced(old(cpu), cpu) && Pends(old(Now()), Now())
      ensures fired ==> log == old(log) + [Fired(old(q[0].id), lastRead)] && q == old(q)[1..]
      ensures !fired ==> q == old(q) && log == old(log) && armed == old(armed)
      ensures fired <==> old(armed)[old(q[0].id)].due <= lastRead
    {
      var head := q[0];
      var tcntr;
      ghost var t;
      tcntr, t := ReadBsp();
      SDiffIsTrueDifference(t, armed[head.id].due);
      fired := SDiff(tcntr, head.expiry) >= 0;
      if fired {
        FirstIsEarliest(q, armed);
        Dequeue(0, Fired(head.id, t));
      }
    }

    /** Fire what is due, then program the wake-up for what is left. `plan` says what the
        callbacks do, one entry per firing; past its end they leave the timers alone. */
    method ChkQueue(plan: seq<seq<Action>>) returns (ghost rounds: seq<Round>)
      requires Valid()
      modifies this
      ensures Valid() && NoLostWakeup() && HeadArmed()
      ensures q != [] ==> lastRead < armed[q[0].id].due && old(hw.now) <= lastRead
      ensures Drains(old(log), log, plan, rounds, old(hw.now), hw.now, Cfg())
      ensures AllServed(old(armed), old(hw.now), log, |old(log)|, plan)
      ensures Balanced(old(cpu), cpu) && Pends(old(Now()), Now())
    {
      cpu := Enter(cpu);
      rounds := Drain(plan);
      NothingDue(old(hw.now));
      DrainedServes(old(log), log, plan, rounds, old(hw.now), hw.now, Cfg(), old(hw.now));
      ghost var m := Now();
      Rearm();
      DrainsLater(old(log), log, plan, rounds, old(hw.now), m.now, Cfg(), old(hw.now), hw.now);
      PendsOn(old(Now()), m, Now());
      cpu := Leave(cpu);
    }

    /** The loop: fire the head and run its callback, until it is not due. */
    method Drain(plan: seq<seq<Action>>) returns (ghost rounds: seq<Round>)
      requires Valid()
      modifies this
      ensures Valid() && Balanced(old(cpu), cpu)
      ensures q != [] ==> lastRead < armed[q[0].id].due && old(hw.now) <= lastRead
      ensures Drains(old(log), log, plan, rounds, old(hw.now), hw.now, Cfg())
      ensures Pends(old(Now()), Now())
    {
      var todo := plan;
      rounds := [];
      while q != []
        invariant Valid() && Pends(old(Now()), Now()) && Balanced(old(cpu), cpu)
        invariant todo == plan[if |rounds| <= |plan| then |rounds| else |plan|..]
        invariant Drains(old(log), log, plan, rounds, old(hw.now), hw.now, Cfg())
        decreases |todo|, |q|
      {
        var fired;
        fired, rounds := DrainOnce(plan, todo, rounds, old(Now()), old(cpu));
        if !fired {
          break;
        }
        todo := if todo == [] then [] else todo[1..];
      }
    }

    /** One turn of it, after some rounds since the moment `m`. */
    method DrainOnce(plan: seq<seq<Action>>, todo: seq<seq<Action>>, ghost rounds: seq<Round>, ghost m: Moment,
                     ghost c: Cpu)
      returns (fired: bool, ghost rounds': seq<Round>)
      requires Valid() && q != [] && Pends(m, Now()) && Balanced(c, cpu)
      requires todo == plan[if |rounds| <= |plan| then |rounds| else |plan|..]
      requires Drains(m.log, log, plan, rounds, m.now, hw.now, Cfg())
      modifies this
      ensures Valid() && Pends(m, Now()) && Balanced(c, cpu)
      ensures Drains(m.log, log, plan, rounds', m.now, hw.now, Cfg())
      ensures |rounds'| == |rounds| + if fired then 1 else 0
      ensures fired && todo == [] ==> q == old(q)[1..]
      ensures !fired ==> q != [] && old(hw.now) <= lastRead < armed[q[0].id].due
    {
      ghost var n := Now();
      ghost var r;
      fired, r := FireNext(if todo == [] then [] else todo[0]);
      PendsOn(m, n, Now());
      rounds' := rounds;
      if fired {
        DrainsMore(m.log, n.log, plan, rounds, m.now, n.now, Cfg(), r, hw.now);
        rounds' := rounds + [r];
      } else {
        DrainsLater(m.log, log, plan, rounds, m.now, n.now, Cfg(), m.now, hw.now);
      }
    }

    /** Where the head is not due, nothing pending is. */
    lemma NothingDue(now: nat)
      requires QueueOk() && (q != [] ==> armed[q[0].id].due > now)
      ensures forall id :: id in Pending(log) ==> Pending(log)[id].due > now
    {
      forall id | id in armed ensures armed[id].due > now {
        assert Queued(q, id);
        FirstIsEarliest(q, armed);
      }
    }

    /** Fire the head of the queue, if it is due, and run its callback. */
    method FireNext(actions: seq<Action>) returns (fired: bool, ghost r: Round)
      requires Valid() && q != []
      modifies this
      ensures Valid() && Balanced(old(cpu), cpu) && Pends(old(Now()), Now())
      ensures fired ==> r.id == old(q[0].id) && old(hw.now) <= r.at <= hw.now
      ensures fired ==> |r.times| == |actions| && Within(r.times, r.at, hw.now)
      ensures fired ==> log == AfterActions(old(log) + [Fired(r.id, r.at)], actions, r.times, Cfg())
      ensures fired && actions == [] ==> q == old(q)[1..]
      ensures !fired ==> log == old(log) && q == old(q) && armed == old(armed)
      ensures !fired ==> old(hw.now) <= lastRead < armed[q[0].id].due
    {
      var head := q[0];
      r := Round(head.id, 0, []);
      fired := FireHead();
      if fired {
        ghost var m, at := Now(), lastRead;
        ghost var rest := q;
        ghost var times := Perform(actions);
        PendsOn(old(Now()), m, Now());
        r := Round(head.id, at, times);
      }
    }

    /** Another interrupt handler reads the timer `n` times. */
    method Readings(n: nat, h0: Hw, c0: nat, ghost e0: nat, ghost lag: nat)
      returns (h: Hw, c: nat, ghost e: nat, ghost told: seq<Reading>)
      requires EpochOk(h0, e0) && Timely(h0.now, armed, slack) && Represents(q, armed)
      requires lag <= e0 && c0 == Wrap(WRAP16 * (e0 - lag))
      ensures EpochOk(h, e) && Timely(h.now, armed, slack) && h0.now <= h.now
      ensures e0 <= e && c == Wrap(WRAP16 * (e - lag))
      ensures |told| == n && forall i :: 0 <= i < n ==> Tells(told[i], lag)
      ensures n == 0 ==> h == h0 && e == e0
      ensures n > 0 && h0.ovf ==> e > e0
      ensures (h.pend <==> h0.pend || e > e0) && (h.now == h0.now ==> h.mc0 == h0.mc0)
    {
      h, c, e, told := h0, c0, e0, [];
      for i := 0 to n
        invariant EpochOk(h, e) && Timely(h.now, armed, slack) && h0.now <= h.now
        invariant e0 <= e && c == Wrap(WRAP16 * (e - lag))
        invariant |told| == i && forall j :: 0 <= j < i ==> Tells(told[j], lag)
        invariant i == 0 ==> h == h0 && e == e0
        invariant i > 0 && h0.ovf ==> e > e0
        invariant (h.pend <==> h0.pend || e > e0) && (h.now == h0.now ==> h.mc0 == h0.mc0)
      {
        ghost var from := h.now;
        var v;
        ghost var t;
        h, c, v, t, e := ReadRegisters(h, c, e, lag);
        told := told + [Reading(from, h.now, v, t)];
      }
    }

    /** The handler from the clearing of the flag, which it found set, to the increment. */
    method CountOverflow(h0: Hw, c0: nat, ghost e0: nat, atClear: nat, atIncrement: nat)
      returns (h: Hw, c: nat, ghost e: nat, ghost drift: nat, ghost cleared: nat, ghost told: Reads)
      requires EpochOk(h0, e0) && Timely(h0.now, armed, slack) && Represents(q, armed)
      requires h0.ovf && c0 == Wrap(WRAP16 * e0)
      ensures EpochOk(h, e) && Timely(h.now, armed, slack) && h0.now <= cleared <= h.now
      ensures drift <= 1 && c == Wrap(WRAP16 * (e + drift)) && (drift == 1 ==> atClear > 0)
      ensures cleared / WRAP16 == h0.now / WRAP16 ==> (drift == 1 <==> atClear > 0)
      ensures |told.atClear| == atClear && |told.atIncrement| == atIncrement && told.atTest == []
      ensures AllExact(told.atClear) && (h.now == h0.now ==> h.mc0 == h0.mc0)
      ensures e >= e0 + 1 - drift && (h.pend <==> h0.pend || e > e0 + 1 - drift)
      ensures if drift == 1 then AllExact(told.atIncrement) else AllLate(told.atIncrement)
    {
      h := Elapse(h0, e0);
      ghost var r1, r2;
      h, c, e, r1 := Readings(atClear, h, c0, e0, 0);
      AllTold(r1, 0);
      h := Elapse(h, e);
      drift, cleared := if h.ovf then 0 else 1, h.now;
      h, e := h.(ovf := false), e + 1 - drift;
      h := Elapse(h, e);
      h, c, e, r2 := Readings(atIncrement, h, c, e, 1 - drift);
      AllTold(r2, 1 - drift);
      told := Reads([], r1, r2);
      h := Elapse(h, e);
      WrapAdd(WRAP16 * (e - (1 - drift)), WRAP16);
      c := Wrap(c + WRAP16);
    }

    /** The handler's flag tests: clear what is set, count an overflow. These lines are outside
        any critical section, so that other interrupt handlers may read the timer before the
        overflow test, between the test and the clearing of the flag, and between that and the
        increment. An overflow is counted twice (`drift`) when a reader comes between the test and
        the clearing; a reader between the clearing and the increment that does not come after
        such a one is told a time a whole wrap too early. */
    method Acknowledge(w: Readers)
      returns (h: Hw, c: nat, ghost e: nat, ghost drift: nat, ghost test: nat, ghost tested: bool, ghost cleared: nat,
               ghost told: Reads)
      requires CounterOk() && Represents(q, armed)
      ensures EpochOk(h, e) && Timely(h.now, armed, slack) && hw.now <= test <= cleared <= h.now
      ensures drift <= 1 && c == Wrap(WRAP16 * (e + drift)) && (c == Wrap(WRAP16 * e) <==> drift == 0)
      ensures drift == 1 ==> tested && w.atClear > 0
      ensures cleared / WRAP16 == test / WRAP16 ==> (drift == 1 <==> tested && w.atClear > 0)
      ensures (hw.ovf && w.atTest == 0 ==> tested) && (h.now == hw.now ==> !h.mc0)
      ensures var counted := if tested then 1 - drift else 0; e >= epoch + counted && (h.pend <==> e > epoch + counted)
      ensures |told.atTest| == w.atTest && AllExact(told.atTest)
      ensures |told.atClear| == (if tested then w.atClear else 0) && AllExact(told.atClear)
      ensures |told.atIncrement| == if tested then w.atIncrement else 0
      ensures if drift == 1 then AllExact(told.atIncrement) else AllLate(told.atIncrement)
    {
      h, c, e, drift := hw.(pend := false), cntr, epoch, 0;
      h := Elapse(h, e);
      if h.mc0 {
        h := Elapse(h, e);
        h := h.(mc0 := false);
      }
      ghost var early;
      h, c, e, early := Readings(w.atTest, h, c, e, 0);
      AllTold(early, 0);
      h := Elapse(h, e);
      test, tested, cleared, told := h.now, h.ovf, h.now, Reads([], [], []);
      if h.ovf {
        h, c, e, drift, cleared, told := CountOverflow(h, c, e, w.atClear, w.atIncrement);
      }
      told := told.(atTest := early);
      EpochsDiffer(e);
    }

    /** The timer interrupt. Taking it clears the pending bit. Other handlers may read the timer
        before the overflow test and before the increment, but not between test and clearing. */
    method IrqHandler(plan: seq<seq<Action>>, atTest: nat, atIncrement: nat)
      returns (ghost rounds: seq<Round>, ghost counted: nat)
      requires Valid() && cpu.irqOn && cpu.depth == 0
      modifies this
      ensures Valid() && hw.now >= old(hw.now) && NoLostWakeup() && HeadArmed()
      ensures q != [] ==> lastRead < armed[q[0].id].due && old(hw.now) <= lastRead
      ensures Drains(old(log), log, plan, rounds, old(hw.now), hw.now, Cfg())
      ensures AllServed(old(armed), old(hw.now), log, |old(log)|, plan)
      ensures counted <= 1 && (old(hw.ovf) && atTest == 0 ==> counted == 1) && epoch >= old(epoch) + counted
      ensures hw.pend ==> epoch > old(epoch) + counted || WasUrgent(log, |old(log)|, hw.now, old(epoch))
      ensures cpu.irqOn && cpu.depth == 0
    {
      var h, c;
      ghost var e, drift, test, tested, cleared, told;
      h, c, e, drift, test, tested, cleared, told := Acknowledge(Readers(atTest, 0, atIncrement));
      counted := if tested then 1 else 0;
      hw, cntr, epoch := h, c, e;
      ghost var m := Now();
      rounds := ChkQueue(plan);
      HandlerPends(old(Now()), m, Now(), counted);
      DrainsLater(old(log), log, plan, rounds, m.now, hw.now, Cfg(), old(hw.now), hw.now);
    }

    /** The queue, as it is linked, represents these pending timers. */
    ghost predicate Represented(p: Pendings) reads this {
      exists q' :: Represents(q', p) && Threaded(tq, expiry, q')
    }

    /** The walk of a start, whatever the expiry fields say. */
    method AnySlot(tick: nat) returns (k: nat)
      ensures k <= |q| && (forall i :: 0 <= i < k ==> SDiff(tick, q[i].expiry) >= 0)
      ensures k < |q| ==> SDiff(tick, q[k].expiry) < 0
    {
      k := 0;
      while k < |q| && SDiff(tick, q[k].expiry) >= 0
        invariant k <= |q| && forall i :: 0 <= i < k ==> SDiff(tick, q[i].expiry) >= 0
      {
        k := k + 1;
      }
    }

    /** A start that is not masked, from its argument check on. The queue represents the timers
        pending with this start exactly if, when its critical section begins, the timer is not linked
        and has the expiry asked for (`free`); otherwise the timer is linked twice, or queued for
        another time, or a queued timer's expiry was overwritten. */
    method StartOpen(op: Op) returns (how: Outcome, ghost want: Pendings, ghost free: bool)
      requires Valid() && NoLostWakeup() && cpu.irqOn && cpu.depth == 0 && op.Client? && op.action.DoStart?
      modifies this
      ensures how.Refused? || how.Accepted? ==>
        Valid() && NoLostWakeup() && cpu.irqOn && cpu.depth == 0 && hw.now >= old(hw.now)
      ensures how.Refused? <==>
        op.action.timer.Null? || op.action.timer.id in old(linked) || op.action.timer.id !in callbacks
      ensures how.Refused? || how.Accepted? ==> Stepped(op, old(Seen()), Seen(), Cfg())
      ensures how.Accepted? ==> armed == want && free && Represented(want)
      ensures how.Broken? ==> !free && !Represented(want) && !Represented(armed)
      ensures how == Ended ==> !Represented(armed) || LeavesWindow([op], hw.now, slack)
      ensures op.before == [] && op.between == [] ==>
        !how.Broken? && (how == Ended ==> !InWindow(old(hw.now), op.action.due, slack))
      ensures how.Accepted? || (how.Broken? && how.written) ==>
        op.action.timer.id in want && want[op.action.timer.id].due == op.action.due
      decreases op, 1
    {
      var timer := op.action.timer;
      want := armed;
      if timer.Null? || timer.id in linked || timer.id !in callbacks {
        return Refused, want, false;
      }
      ghost var s := Seen();
      var ok := Run(op.before);
      if !ok {
        if Represented(armed) { LeavesWithin(op, op.before, hw.now, slack); }
        return Ended, want, false;
      }
      how, want, free := StartWrite(op, s);
    }

    /** The rest of a start whose checks were passed at `s`: write the expiry, and queue the timer. */
    method StartWrite(op: Op, ghost s: Snap) returns (how: Outcome, ghost want: Pendings, ghost free: bool)
      requires Valid() && NoLostWakeup() && cpu.irqOn && cpu.depth == 0 && op.Client? && op.action.DoStart?
      requires op.action.timer.Ref? && op.action.timer.id in callbacks && op.action.timer.id !in Pending(s.log)
      requires Ran(op.before, s, Seen(), Cfg()) && s.now <= hw.now
      modifies this
      ensures how.Accepted? || how == Ended || how.Broken?
      ensures how.Accepted? ==>
        Valid() && NoLostWakeup() && cpu.irqOn && cpu.depth == 0 && hw.now >= old(hw.now)
      ensures how.Accepted? ==> Stepped(op, s, Seen(), Cfg())
      ensures how.Accepted? ==> armed == want && free && Represented(want)
      ensures how.Broken? ==> !free && !Represented(want) && !Represented(armed)
      ensures how == Ended ==> !Represented(armed) || LeavesWindow([op], hw.now, slack)
      ensures op.action.timer.id !in old(linked) && op.between == [] ==>
        !how.Broken? && (how == Ended ==> !InWindow(old(hw.now), op.action.due, slack))
      ensures how.Accepted? || (how.Broken? && how.written) ==>
        op.action.timer.id in want && want[op.action.timer.id].due == op.action.due
      decreases op, 0
    {
      var id, due := op.action.timer.id, op.action.due;
      if id in linked && (id !in expiry || expiry[id] != Wrap(due)) {
        Overwrite(id, Wrap(due));
        return Broken(false, true), armed, false;
      }
      ghost var t := Seen();
      expiry := expiry[id := Wrap(due)];
      var ok := Run(op.between);
      if !ok {
        if Represented(armed) { LeavesWithin(op, op.between, hw.now, slack); }
        return Ended, armed, false;
      }
      ghost var u := Seen();
      how, want, free := StartInside(id, due);
      if how == Ended { LeavesItself(op, hw.now, slack); }
      if how.Accepted? { StartStepped(op, s, t, u, Seen(), Cfg()); }
    }

    /** The critical section of a start, whatever has happened since its checks. */
    method StartInside(id: TimerId, due: nat) returns (how: Outcome, ghost want: Pendings, ghost free: bool)
      requires Valid() && NoLostWakeup() && cpu.irqOn && cpu.depth == 0
      modifies this
      ensures how.Accepted? || how == Ended || how.Broken?
      ensures free <==> id !in old(linked) && id in old(expiry) && old(expiry)[id] == Wrap(due)
      ensures want == old(armed)[id := Deadline(due, |old(log)|)]
      ensures how.Accepted? ==>
        Valid() && NoLostWakeup() && cpu.irqOn && cpu.depth == 0 && hw.now >= old(hw.now)
      ensures how.Accepted? ==>
        free && armed == want && Represented(want) && log == old(log) + [Started(id, due)]
      ensures how.Broken? <==> !free
      ensures how.Broken? ==> how.written && (how.linked <==> id in old(linked))
      ensures how.Broken? ==> !Represented(want) && !Represented(armed)
      ensures how == Ended ==> hw == old(hw) && !InWindow(hw.now, due, slack)
    {
      var tick := Wrap(due);
      want, free := armed[id := Deadline(due, |log|)], id !in linked && id in expiry && expiry[id] == tick;
      if id in linked {
        LinkTwice(id, due);
        how := Broken(true, true);
      } else if id !in expiry || expiry[id] != tick {
        Misdate(id, due);
        how := Broken(true, false);
      } else if !InWindow(hw.now, due, slack) {
        how := Ended;
      } else {
        cpu := Enter(cpu);
        Insert(id, tick, due);
        cpu := Leave(cpu);
        how := Accepted;
      }
    }

    /** The failing interleaving: a start passes its checks and writes the expiry; an interrupt starts
        the same timer; the first start goes on. */
    method StartRacesStart(id: TimerId, due: nat, other: nat)
      requires Valid() && id in callbacks && id !in linked
      requires InWindow(hw.now, other, slack)
      modifies this
      ensures !Represented(armed[id := Deadline(due, |log|)]) && !Represented(armed)
      ensures log == old(log) + [Started(id, other)]
    {
      expiry := expiry[id := Wrap(due)];
      var rc := StartAt(Ref(id), Wrap(other), other);
      LinkTwice(id, due);
    }

    /** The expiry of a queued timer is overwritten. */
    method Overwrite(id: TimerId, tick: nat)
      requires Valid() && id in linked && (id in expiry ==> expiry[id] != tick)
      modifies `expiry
      ensures !Represented(armed)
    {
      assert Queued(q, id);
      expiry := expiry[id := tick];
      forall q' | Represents(q', armed) ensures !Threaded(tq, expiry, q') {
        assert Queued(q', id);
      }
    }

    /** A timer already in the queue is inserted again. */
    method LinkTwice(id: TimerId, ghost due: nat)
      requires Valid() && id in linked
      modifies `tq
      ensures !Represented(armed[id := Deadline(due, |log|)]) && !Represented(armed)
    {
      var m := IndexOf(id);
      var k := FindSlot(expiry[id], armed[id].due);
      ghost var was := tq;
      tq := TailQueue.InsertAt(tq, Ids(q), k, id);
      TwiceIsNotThreaded(was, expiry, q, armed, k, m, Deadline(due, |log|));
      TwiceIsNotThreaded(was, expiry, q, armed, k, m, armed[id]);
      assert armed[id := armed[id]] == armed;
    }

    /** A timer is inserted with an expiry that is not the one asked for. */
    method Misdate(id: TimerId, ghost due: nat)
      requires Valid() && id !in linked && (id in expiry ==> expiry[id] != Wrap(due))
      modifies `tq
      ensures !Represented(armed[id := Deadline(due, |log|)]) && !Represented(armed)
    {
      var k := AnySlot(if id in expiry then expiry[id] else 0);
      InsertedIsNotThreaded(tq, expiry, q, armed, k, id);
      tq := TailQueue.InsertAt(tq, Ids(q), k, id);
      ghost var p := armed[id := Deadline(due, |log|)];
      forall q' | Represents(q', p) ensures !Threaded(tq, expiry, q') {
        assert Queued(q', id);
      }
    }

    /** Any sequence of clock progress, interrupts, client calls and reads, each start open to more of
        them. The run ends early when a start has broken the queue, or comes to queue a deadline out
        of the window. */
    method Run(ops: seq<Op>) returns (ok: bool)
      requires Valid() && NoLostWakeup() && cpu.irqOn && cpu.depth == 0
      modifies this
      ensures ok ==> Valid() && NoLostWakeup() && cpu.irqOn && cpu.depth == 0
      ensures ok ==> hw.now >= old(hw.now) && Legal(log) && Ran(ops, old(Seen()), Seen(), Cfg())
      ensures ok ==> forall id :: id in armed && armed[id].due <= hw.now ==> IrqRequested(hw)
      ensures !ok ==> !Represented(armed) || LeavesWindow(ops, hw.now, slack)
      ensures ops == [] ==> ok && hw == old(hw) && expiry == old(expiry) && linked == old(linked)
      decreases ops, 3
    {
      ghost var trace := [Seen()];
      for i := 0 to |ops|
        invariant Valid() && NoLostWakeup() && cpu.irqOn && cpu.depth == 0
        invariant |trace| == i + 1 && trace[0] == old(Seen()) && trace[i] == Seen() && hw.now >= old(hw.now)
        invariant forall k :: 0 <= k < i ==> Stepped(ops[k], trace[k], trace[k + 1], Cfg())
        invariant i == 0 ==> hw == old(hw) && expiry == old(expiry) && linked == old(linked)
      {
        ok := Step(ops[i]);
        if !ok {
          if Represented(armed) { LeavesInRun(ops, i, hw.now, slack); }
          return;
        }
        trace := trace + [Seen()];
      }
      RunTraced(ops, trace, Cfg());
      forall id | id in armed && armed[id].due <= hw.now ensures IrqRequested(hw) {
        DueMeansRequested(id);
      }
      ok := true;
    }

    method Step(op: Op) returns (ok: bool)
      requires Valid() && NoLostWakeup() && cpu.irqOn && cpu.depth == 0
      modifies this
      ensures ok ==> Valid() && NoLostWakeup() && cpu.irqOn && cpu.depth == 0
      ensures ok ==> Stepped(op, old(Seen()), Seen(), Cfg())
      ensures !ok ==> !Represented(armed) || LeavesWindow([op], hw.now, slack)
      ensures !ok ==> op.Client? && op.action.DoStart? && (op.before == [] && op.between == [] ==>
        !InWindow(old(hw.now), op.action.due, slack))
      decreases op, 2
    {
      ok := true;
      match op {
        case Idle =>
          hw := Elapse(hw, epoch);
        case Interrupt(plan, atTest, atIncrement) =>
          if IrqRequested(hw) {
            ghost var rounds, counted := IrqHandler(plan, atTest, atIncrement);
            InterruptStepped(op, rounds, old(Seen()), Seen(), Cfg());
          }
        case Client(action, _, _) =>
          if action.DoStop? {
            Act(action);
          } else {
            var how;
            ghost var want, free;
            how, want, free := StartOpen(op);
            ok := how.Refused? || how.Accepted?;
          }
        case Read =>
          var r;
          ghost var t;
          r, t := ReadBsp();
      }
    }

    /** Blocking delay. Between two readings of its loop the world goes on: `world[i]` is what
        happens, interrupts and all, before the `i`-th reading of the loop. The loop has ended
        when `done`, at the first reading past its end; that came too early exactly when fewer than
        ticks - 2^31 ticks had passed. `at` are the instants of the readings. */
    method Delay(ticks: nat, world: seq<seq<Op>>) returns (ok: bool, done: bool, ghost from: nat, ghost at: seq<nat>)
      requires Valid() && NoLostWakeup() && cpu.irqOn && cpu.depth == 0 && ticks < WRAP32
      modifies this
      ensures ok ==> Valid() && NoLostWakeup() && cpu.irqOn && cpu.depth == 0
      ensures done ==> ok
      ensures ok ==> old(hw.now) <= from <= hw.now && Within(at, from, hw.now)
      ensures forall i :: 0 <= i < |at| ==>
        (SDiff(Wrap(at[i]), Wrap(from + ticks)) > 0 <==> done && i == |at| - 1)
      ensures if done then 0 < |at| <= |world| else if ok then |at| == |world|
        else |at| < |world| && (!Represented(armed) || LeavesWindow(world[|at|], hw.now, slack))
      ensures done ==> var last := at[|at| - 1]; last <= from + ticks <==> last - from < ticks - HALF32
      ensures done && ticks <= HALF32 ==> from + ticks < at[|at| - 1]
    {
      var first;
      first, from := ReadBsp();
      var until := Wrap(first + ticks);
      WrapAdd(from, ticks);
      ok, done, at := true, false, [];
      for i := 0 to |world|
        invariant Valid() && NoLostWakeup() && cpu.irqOn && cpu.depth == 0 && old(hw.now) <= from <= hw.now
        invariant ok && !done && |at| == i && Within(at, from, hw.now)
        invariant forall k :: 0 <= k < i ==> SDiff(Wrap(at[k]), until) <= 0
      {
        ghost var before, t := hw.now, 0;
        ok, done, t := DelayTurn(world[i], until, from, ticks);
        if !ok {
          return;
        }
        WithinMore(at, from, before, t, hw.now);
        at := at + [t];
        if done {
          return;
        }
      }
    }

    /** The world goes on, and one reading of the loop. */
    method DelayTurn(ops: seq<Op>, until: nat, ghost from: nat, ghost ticks: nat)
      returns (ok: bool, past: bool, ghost t: nat)
      requires Valid() && NoLostWakeup() && cpu.irqOn && cpu.depth == 0
      requires from <= hw.now && ticks < WRAP32 && until == Wrap(from + ticks)
      modifies this
      ensures ok ==> Valid() && NoLostWakeup() && cpu.irqOn && cpu.depth == 0 && old(hw.now) <= t <= hw.now
      ensures !ok ==> !past && (!Represented(armed) || LeavesWindow(ops, hw.now, slack))
      ensures ok ==> (past <==> SDiff(Wrap(t), until) > 0)
      ensures past ==> (t <= from + ticks <==> t - from < ticks - HALF32) && (ticks <= HALF32 ==> from + ticks < t)
    {
      past, t := false, 0;
      ok := Run(ops);
      if ok {
        var r;
        r, t := ReadBsp();
        past := SDiff(r, until) > 0;
        DelayExit(from, t, ticks);
      }
    }
  }
}
